# Models of the codecs in the MongoDB driver

The PHP driver for MongoDB, version 1.2.4, turns values into BSON and back through a handful of
codecs, most of them in its vendored libbson. This project models seven of them and proves what
they are for. Each comes as definitions (what a text or a byte string means, what a machine does),
as the code that loops and updates state, and as theorems about the definitions; every method is
proved equal to a definition the theorems speak of.

| component | files |
|---|---|
| 128-bit decimals: printing and parsing | `Decimal128`, `DecimalText`, `DecimalParse`, `DecimalReader`, `DecimalGrammar`, `DecimalTheorems`, `DecimalRoundTrip`, `DecimalAcceptance`, `DecimalWitnesses`, `Digits` |
| base64 | `Base64`, `Base64Codec`, `Base64Texts` |
| JSON and BSON | `Json`, `JsonMachine`, `JsonRuns`, `JsonSpecials`, `JsonTheorems`, `JsonReader`, `JsonTexts`, `JsonWriting`, `Strtoll`, `StrtollTexts` |
| BSON iterator | `BsonBytes`, `LittleEndian`, `BsonCursor`, `BsonFields`, `BsonReading`, `BsonSearch`, `BsonAcceptance`, `BsonIter` |
| MD5 | `Md5`, `Md5Padding`, `Md5Context` |
| BCON builder and extractor | `Bcon`, `BconTheorems`, `BconPatterns`, `BconContext` |
| PHP arrays and BSON | `Php`, `PhpTheorems`, `PhpShapes`, `PhpBytes`, `PhpContext` |
| shared | `Words`, `CText`, `Bson` (value trees), `BsonBuilding` (the stack of open documents) |

`dafny verify dfyconfig.toml` checks all of it.

## How the source is rendered

- Machine integers are ranges of `int`, and wrap-around is written out where it can happen. Shifts
  and masks are division and remainder; `|` of disjoint bits is addition.
- Values from outside are parameters of every statement that depends on them, so a theorem holds
  for any choice: `wild` is what scanf leaves for an exponent beyond an int, `beyond` is the cell
  after the 34 digits that the decimal parser reads when it has padded to 35, `stray` is a byte
  read past the end of a document's memory, `Environment` holds the reader of ISO dates, of `%02x`
  and of base64 texts that are not ASCII, `Validator` is the UTF-8 check, and the MD5 block function
  is a function argument.
- Characters are bytes; where their order or sign matters, `char` is unsigned.
- The comment above the decimal parser (`bson-decimal128.c:418-424`) promises infinity for values
  out of range and rounding to nearest even. The code refuses both with NaN, and the model follows
  the code. `AcceptedIff` says exactly which texts are accepted, `ParsingIsExactIff` which of those
  are exact, and `ParsedExactlyIff` how the two compare with the numbers the format can represent.
  Three families of texts are accepted but not exactly, two families of representable numbers are
  refused; `DecimalWitnesses` gives texts of each.
- The members of `bson_type_data` in `bson-json.c` overlap. The model notes which one was written
  last and whether another was written before; only where bytes of another member would be read
  does the reader end in `Outside`, a state of the model's own. `RunSpecial` says for which objects.
- A comment in `UTCDateTime.c:75-81` says that the number reader misses numbers out of range. The one
  here does not; what it does miss is a sign without digits, as `DateTimeFromString` shows.
- What bson_as_json writes is given as the tree that a JSON parser makes of its text: control characters are
  escaped with their number in decimal (`bson-utf8.c:310`), which reads as hexadecimal, so some come back as
  other characters.
- bson_t under construction is a tree: begin opens a level, end makes it a field of the one around
  it. `append` never fails for want of room.
- A failed `assert` in `bcon.c` is an outcome of its own.

## Model

| member | source | states |
|---|---|---|
| Decimal128.DecodeEncode | mongodb-1.2.4/src/libbson/src/bson/bson-decimal128.c:715-733 | The words written for a canonical value read back as that value: sign, coefficient below 10^34, exponent -6176..6111, infinities and NaN |
| Decimal128.DecodeLarge | mongodb-1.2.4/src/libbson/src/bson/bson-decimal128.c:151-206 | Words in the layout for large coefficients, put together from sign, exponent and any rest, are a zero of that sign and exponent |
| Decimal128.DecodeSpecial | mongodb-1.2.4/src/libbson/src/bson/bson-decimal128.c:163-180 | Words whose combination field is 30 or 31 are an infinity of their sign and NaN, whatever follows |
| Decimal128.Divide1B | mongodb-1.2.4/src/libbson/src/bson/bson-decimal128.c:75-101 | The quotient and remainder by 10^9 of a 128-bit number are exact, the remainder below 10^9 |
| Decimal128.DivideAndStore | mongodb-1.2.4/src/libbson/src/bson/bson-decimal128.c:213-228 | One round: quotient and cells filled so far keep the value, and the cells further left stay zero |
| Decimal128.SignificandCells | mongodb-1.2.4/src/libbson/src/bson/bson-decimal128.c:213-228 | After four rounds the 36 cells denote the coefficient in base 10, for every coefficient below 2^113 |
| Decimal128.FourRoundsSuffice | mongodb-1.2.4/src/libbson/src/bson/bson-decimal128.c:213-228 | The quotient left after four rounds is 0 |
| Decimal128.SignificandDigits | mongodb-1.2.4/src/libbson/src/bson/bson-decimal128.c:192-246 | The digits to print are those of the coefficient without leading zeros; a coefficient of 2^113 or more prints as 0 |
| Decimal128.ReadFields | mongodb-1.2.4/src/libbson/src/bson/bson-decimal128.c:151-206 | Combination field, exponent and coefficient of any 128 bits are the ones the format assigns to them |
| Decimal128.ToString | mongodb-1.2.4/src/libbson/src/bson/bson-decimal128.c:123-300 | In a buffer with room for it, the text of the value and its NUL, for every 128 bits, and nothing is written after the NUL |
| DecimalRoundTrip.PrintingDenotes | mongodb-1.2.4/src/libbson/src/bson/bson-decimal128.c:230-299 | For every finite value the text, read by the grammar of the parser, says exactly its sign, coefficient and exponent |
| DecimalRoundTrip.PrintingNotation | mongodb-1.2.4/src/libbson/src/bson/bson-decimal128.c:248-299 | Scientific notation is used exactly when the scientific exponent is below -6 or the exponent is positive |
| DecimalRoundTrip.PrintingSpelled | mongodb-1.2.4/src/libbson/src/bson/bson-decimal128.c:230-299 | The text of a finite value is a spelling in the grammar below: sign only when negative, d.ddd and E with a signed exponent without leading zeros, or plain digits with as many after the point as the exponent says and at least one before it |
| DecimalRoundTrip.PrintingWords | mongodb-1.2.4/src/libbson/src/bson/bson-decimal128.c:163-180 | Infinity, -Infinity and NaN are the texts of the other values |
| DecimalRoundTrip.PrintingFitsIff | mongodb-1.2.4/src/libbson/src/bson/bson-decimal128.h:33-43 | For every 128 bits the text and its NUL fit the documented 43 bytes, except that they take 44 exactly for a negative value of 35 digits whose exponent is at most -1034, equal to -40, or at least 966 |
| DecimalRoundTrip.PrintingOverflows | mongodb-1.2.4/src/libbson/src/bson/bson-decimal128.c:248-299 | One of those: all coefficient bits set at exponent 6111 needs 44 bytes |
| DecimalRoundTrip.PrintingFits | mongodb-1.2.4/src/libbson/src/bson/bson-decimal128.h:33-43 | With its NUL the text of every canonical value fits the documented 43 bytes |
| DecimalRoundTrip.PrintingFitsTightly | mongodb-1.2.4/src/libbson/src/bson/bson-decimal128.h:33-43 | Some canonical value needs all 43 bytes |
| DecimalRoundTrip.RoundTrip | mongodb-1.2.4/src/libbson/src/bson/bson-decimal128.c:123-736 | Parsing the printed text of any canonical decimal gives back the same two words, bit for bit, zeros of either sign, infinities and NaN included |
| DecimalRoundTrip.RoundTripIff | mongodb-1.2.4/src/libbson/src/bson/bson-decimal128.c:123-736 | For all 128 bits: printing and parsing gives the same two words exactly when they are canonical |
| DecimalGrammar.NumbersIff | mongodb-1.2.4/src/libbson/src/bson/bson-decimal128.c:466-561 | The texts read as numbers are just those put together from a sign or none, digits with a point anywhere or nowhere, and perhaps e or E, white space, a sign or none and digits; and each says just that sign, those digits, that fraction and that exponent |
| DecimalGrammar.SpellingIsRead | mongodb-1.2.4/src/libbson/src/bson/bson-decimal128.c:466-561 | Every such spelling is read as what it says |
| DecimalGrammar.WordsIff | mongodb-1.2.4/src/libbson/src/bson/bson-decimal128.c:392-491 | Behind a sign or none, inf and infinity in any mix of cases are read as infinity, nan as NaN, and nothing else is |
| DecimalGrammar.OtherTexts | mongodb-1.2.4/src/libbson/src/bson/bson-decimal128.c:471-562 | The words give the words of their values; every other text that is no number is refused, and a refusal leaves NaN |
| DecimalReader.EqualStrings | mongodb-1.2.4/src/libbson/src/bson/bson-decimal128.c:392-415 | Comparison that ignores the case of ASCII letters |
| DecimalReader.ReadSpecial | mongodb-1.2.4/src/libbson/src/bson/bson-decimal128.c:478-491 | inf, infinity and nan in any case; any other word is refused with NaN |
| DecimalReader.ReadDigits | mongodb-1.2.4/src/libbson/src/bson/bson-decimal128.c:493-533 | The digit loop stops at the end of the mantissa, refuses a second point, and counts and stores the digits after the leading zeros |
| DecimalReader.ReadExponentField | mongodb-1.2.4/src/libbson/src/bson/bson-decimal128.c:535-557 | The exponent is an int by the rules of scanf, and the text must end after it |
| DecimalReader.ScanTrailingZeros | mongodb-1.2.4/src/libbson/src/bson/bson-decimal128.c:570-578 | The scan counts the digits up to the last nonzero one, in place in the text |
| DecimalReader.ScanStops | mongodb-1.2.4/src/libbson/src/bson/bson-decimal128.c:573-577 | It stops with at least one digit left whenever a nonzero digit was read |
| DecimalReader.Pad | mongodb-1.2.4/src/libbson/src/bson/bson-decimal128.c:592-611 | The loop that lowers a large exponent ends, and computes the padding or the refusal |
| DecimalReader.Trim | mongodb-1.2.4/src/libbson/src/bson/bson-decimal128.c:613-652 | The loop that drops trailing digits ends, and computes the trimming or the refusal |
| DecimalReader.NormaliseExponent | mongodb-1.2.4/src/libbson/src/bson/bson-decimal128.c:581-652 | Both loops after the radix correction compute the specified normalisation for every exponent and digit count |
| DecimalTheorems.TrimDownKeeps | mongodb-1.2.4/src/libbson/src/bson/bson-decimal128.c:613-652 | Trimming drops only zeros, and the exponent makes up for every dropped digit |
| DecimalTheorems.Normalised | mongodb-1.2.4/src/libbson/src/bson/bson-decimal128.c:581-652 | Normalising keeps the number, and pads to a 35th digit exactly when the exponent is 34 - digits + 1 too large |
| DecimalReader.Mul64x64 | mongodb-1.2.4/src/libbson/src/bson/bson-decimal128.c:324-358 | The exact 128-bit product of two 64-bit words |
| DecimalReader.Halves | mongodb-1.2.4/src/libbson/src/bson/bson-decimal128.c:672-703 | high * 10^17 + low is the base-10 value of the stored digits |
| DecimalReader.Combine | mongodb-1.2.4/src/libbson/src/bson/bson-decimal128.c:705-712 | The product with 10^17 plus the low half, with the carry, is exact |
| DecimalReader.PackWords | mongodb-1.2.4/src/libbson/src/bson/bson-decimal128.c:715-733 | The packed words carry sign, exponent and coefficient in the layout of the format |
| DecimalParse.CellsFit | mongodb-1.2.4/src/libbson/src/bson/bson-decimal128.c:672-712 | Even 35 cells stay below 2^128 |
| DecimalReader.FromString | mongodb-1.2.4/src/libbson/src/bson/bson-decimal128.c:437-736 | The parser as it runs, on any C string, returns the specified answer and words |
| DecimalTheorems.ParsingIsExactIff | mongodb-1.2.4/src/libbson/src/bson/bson-decimal128.c:494-736 | An accepted nonzero text decodes to a canonical value equal to the number written exactly when its exponent is plain, the digits past the 34th are zeros, and padding stays within 34 digits |
| DecimalTheorems.PlainExponentIff | mongodb-1.2.4/src/libbson/src/bson/bson-decimal128.c:581-590 | The exponent that the loops start from is the one written exactly when the exponent field and its sum with the fraction digits fit an int and the overflow prevention does not trip |
| DecimalAcceptance.TrimDownIff | mongodb-1.2.4/src/libbson/src/bson/bson-decimal128.c:613-652 | The second loop succeeds exactly when the exponent ends in range, every digit it drops may be dropped, and the characters it looks at are zeros; and it then drops just as many digits as that takes |
| DecimalAcceptance.RoundsOffIff | mongodb-1.2.4/src/libbson/src/bson/bson-decimal128.c:573-577 | The scan for trailing zeros makes no difference: only the one character after the last digit kept decides |
| DecimalAcceptance.AcceptedIff | mongodb-1.2.4/src/libbson/src/bson/bson-decimal128.c:437-736 | A text with a nonzero digit is accepted exactly when a condition on its sign, digits, point and exponent holds that needs no run of the loops |
| DecimalAcceptance.RepresentableIff | mongodb-1.2.4/src/libbson/src/bson/bson-decimal128.c:29-32 | Some canonical decimal128 is equal to the number written exactly when dropping trailing zeros or appending zeros leaves at most 34 digits and an exponent in range |
| DecimalAcceptance.ParsedExactlyIff | mongodb-1.2.4/src/libbson/src/bson/bson-decimal128.c:437-736 | A text with a nonzero digit is accepted and read exactly if and only if its number is representable, its exponent is plain, and the characters taken for the dropped digits are zeros |
| DecimalAcceptance.FewDigitsIff | mongodb-1.2.4/src/libbson/src/bson/bson-decimal128.c:581-670 | Up to 34 significant digits and a plain exponent: accepted exactly when padding to at most 35 digits or dropping zeros brings the exponent into range and the radix point does not stand where the first dropped digit is expected; read exactly when representable and the point is not there |
| DecimalAcceptance.WholeNumbersIff | mongodb-1.2.4/src/libbson/src/bson/bson-decimal128.c:581-670 | Without a point and leading zeros a text with a plain exponent is read exactly if and only if its number is representable |
| DecimalWitnesses.ZeroKeepsSign | mongodb-1.2.4/src/libbson/src/bson/bson-decimal128.c:563-569 | A text of zeros is always accepted: sign kept, exponent clamped into range |
| DecimalWitnesses.DroppedDigitIsLost | mongodb-1.2.4/src/libbson/src/bson/bson-decimal128.c:627-632 | With leading zeros the check looks at the wrong digit: 001, 34 zeros and a 5 is accepted, the 5 dropped |
| DecimalWitnesses.LeadingZerosRefused | mongodb-1.2.4/src/libbson/src/bson/bson-decimal128.c:628-632 | 00, 34 nines and 00 is refused, though 99...9E2 is canonical: the leading zeros shift the check onto a nine |
| DecimalWitnesses.PointRefused | mongodb-1.2.4/src/libbson/src/bson/bson-decimal128.c:661-668 | 10.E-6177 is refused, though it is 1E-6176: the digit looked at is the point |
| DecimalWitnesses.TinyBecomesLeast | mongodb-1.2.4/src/libbson/src/bson/bson-decimal128.c:585-587 | 0.00...01 with 2^14 zeros or more reads as 1E-6176 |
| DecimalWitnesses.OverlongIsAccepted | mongodb-1.2.4/src/libbson/src/bson/bson-decimal128.c:597-608 | 1E+6145 would need 35 digits; it is accepted all the same, and not exactly |
| Base64.DecodeEncode | mongodb-1.2.4/src/libbson/src/bson/b64_ntop.h:115-184 | Decoding the text of any byte string gives it back, and the sizing pass gives its length |
| Base64.EncodeDecode | mongodb-1.2.4/src/libbson/src/bson/b64_pton.h:160-276 | Encoding what an accepted text decodes to gives that text without its white space: padding and leftover bits are checked |
| Base64Texts.DecodesIff | mongodb-1.2.4/src/libbson/src/bson/b64_pton.h:160-276 | A text decodes to some bytes exactly when, stripped of white space wherever it stands, it is the text of those bytes |
| Base64Texts.SizedIff | mongodb-1.2.4/src/libbson/src/bson/b64_pton.h:279-371 | The sizing pass accepts exactly the texts that, stripped of white space, are symbols with the padding they need |
| Base64Texts.SextetsAreBits | mongodb-1.2.4/src/libbson/src/bson/b64_ntop.h:120-177 | The six-bit groups are the bits of the bytes, high-order bit first, filled up with zero bits (section 4 of RFC 4648) |
| Base64Texts.DataAreBits | mongodb-1.2.4/src/libbson/src/bson/b64_pton.h:185-222 | The bytes decoded are the whole bytes of those bits, leftover bits dropped |
| Base64Texts.TextOfGroups | mongodb-1.2.4/src/libbson/src/bson/b64_ntop.h:115-184 | The text is one character of the alphabet for each group, and then padding characters |
| Base64.SizingAgrees | mongodb-1.2.4/src/libbson/src/bson/b64_pton.h:279-371 | The sizing pass accepts every text that decodes, with the same length, and beyond those only texts with leftover bits; a buffer one byte longer is always enough |
| Base64.EncodedLength | mongodb-1.2.4/src/libbson/src/bson/b64_ntop.h:115-184 | The text of n bytes has 4 * ceil(n / 3) characters |
| Base64.BufferStep | mongodb-1.2.4/src/libbson/src/bson/b64_pton.h:185-222 | One symbol in each of the four states changes the buffer as the definition of base64 says |
| Base64Codec.Ntop | mongodb-1.2.4/src/libbson/src/bson/b64_ntop.h:115-184 | -1 exactly when text and NUL do not fit; else the text, its NUL, and its length |
| Base64Codec.InitializeRmap | mongodb-1.2.4/src/libbson/src/bson/b64_pton.h:131-158 | Every entry of the reverse map |
| Base64Codec.TailAccepted | mongodb-1.2.4/src/libbson/src/bson/b64_pton.h:230-270 | The padding check for each of the four states |
| Base64Codec.PtonDo | mongodb-1.2.4/src/libbson/src/bson/b64_pton.h:160-276 | The decoded length or -1, and the bytes in the buffer even when only the leftover bits are refused |
| Base64Codec.PtonLen | mongodb-1.2.4/src/libbson/src/bson/b64_pton.h:279-371 | The sizing pass as it runs |
| JsonTheorems.StreamingIsRecursion | mongodb-1.2.4/src/libbson/src/bson/bson-json.c:382-1001 | The events of any array or plain object build exactly its recursive meaning and end in DONE with no level open when every special object in it makes a value and at most 100 levels nest; otherwise reading stops short of DONE |
| JsonTheorems.RunValue | mongodb-1.2.4/src/libbson/src/bson/bson-json.c:382-1001 | In document or array position any such value appends exactly its meaning under its key and leaves the reader REGULAR at the same depth, or is refused because it has none or nests too deeply |
| JsonTheorems.IntegersAreSmallest | mongodb-1.2.4/src/libbson/src/bson/bson-json.c:414-435 | Reading an integer appends a BSON integer equal to it, and none that is equal takes fewer bytes |
| JsonTheorems.WrappedIsModular | mongodb-1.2.4/src/libbson/src/bson/bson-json.c:462-470 | The numbers of a timestamp are taken modulo 2^32 |
| JsonWriting.WrittenIsReadIff | mongodb-1.2.4/src/libbson/src/bson/bson.c:2384-2862 | A value written as JSON is read back exactly when it survives: integers by width, texts and keys without the control characters that are escaped in decimal and read in hexadecimal, canonical decimals, no code, symbol or dbpointer, no document whose first key is a special one, and arrays whose keys are those the reader counts out |
| JsonWriting.DocumentsComeBack | mongodb-1.2.4/src/libbson/src/bson/bson.c:2384-2862 | The events of the JSON of a surviving document of at most 100 levels make the reader append just its fields |
| JsonWriting.NibbleIff | mongodb-1.2.4/src/libbson/src/bson/bson-oid.h:157-247 | A character of an id counts as its hexadecimal digit in either case, and every other one as zero |
| JsonWriting.OidOfHex | mongodb-1.2.4/src/libbson/src/bson/bson-oid.c:291-340 | An object id is read back from its hexadecimal text |
| JsonSpecials.RunSpecial | mongodb-1.2.4/src/libbson/src/bson/bson-json.c:278-953 | Any run of special keys, however their types mix, ends as its last key and the parts noted say: one value is appended and the reader is back in REGULAR, or the object is refused, or bytes that another type left would be read; a last $date or $timestamp may hold an object, with t and i in either order, each modulo 2^32 |
| JsonSpecials.SingleSpecialIff | mongodb-1.2.4/src/libbson/src/bson/bson-json.c:414-915 | An object of one special key with a scalar or array is read exactly when that makes a value by itself, and refused otherwise |
| JsonSpecials.ScalarMembersIff | mongodb-1.2.4/src/libbson/src/bson/bson-json.c:278-288 | Special keys of any types with scalars are refused unless each takes its scalar; then the last key decides: a type of one part has the value of the last member, $regex and $binary take the last of each part among the members of their type at the end, and a missing part is refused, or read from what other types left |
| JsonTheorems.OnlyContainersAreDocuments | mongodb-1.2.4/src/libbson/src/bson/bson-json.c:865-870 | A scalar or special object at the top level is refused while the reader has no key |
| JsonTheorems.ArrayKeysAreConsecutiveIff | mongodb-1.2.4/src/libbson/src/bson/bson-json.c:348-357 | The keys of a built array are 0, 1, 2 and so on exactly when no element is a special object, because every callback inside one takes an index |
| JsonReader.Reader.FixupKey | mongodb-1.2.4/src/libbson/src/bson/bson-json.c:348-357 | Inside an array the key becomes the next index |
| JsonReader.Reader.PushFrame | mongodb-1.2.4/src/libbson/src/bson/bson-json.c:223-241 | Pushing a frame of the array of 100, or refusing, is one more level of the machine |
| JsonReader.Reader.PopFrame | mongodb-1.2.4/src/libbson/src/bson/bson-json.c:242-259 | Popping makes a field of the level, and ends in DONE at the outermost one |
| JsonReader.Reader.ReadNull | mongodb-1.2.4/src/libbson/src/bson/bson-json.c:382-391 | The callback is one step of the machine |
| JsonReader.Reader.ReadBoolean | mongodb-1.2.4/src/libbson/src/bson/bson-json.c:394-411 | The callback is one step of the machine |
| JsonReader.Reader.ReadInteger | mongodb-1.2.4/src/libbson/src/bson/bson-json.c:414-476 | The callback is one step of the machine, with the split at 32 bits |
| JsonReader.Reader.ReadDouble | mongodb-1.2.4/src/libbson/src/bson/bson-json.c:479-489 | The callback is one step of the machine |
| JsonReader.Reader.ReadString | mongodb-1.2.4/src/libbson/src/bson/bson-json.c:492-637 | The callback is one step of the machine, whose texts bson_ascii_strtoll, b64_pton and bson_decimal128_from_string read as they run |
| JsonReader.Reader.ReadStartMap | mongodb-1.2.4/src/libbson/src/bson/bson-json.c:640-658 | The callback is one step of the machine |
| JsonReader.Reader.ReadMapKey | mongodb-1.2.4/src/libbson/src/bson/bson-json.c:687-754 | The callback is one step of the machine: keys of any types may follow each other |
| JsonReader.Reader.ReadEndMap | mongodb-1.2.4/src/libbson/src/bson/bson-json.c:852-953 | The callback is one step of the machine; a value is appended by the type of the last key, unless bytes of another union member would be read |
| JsonReader.Reader.ReadStartArray | mongodb-1.2.4/src/libbson/src/bson/bson-json.c:956-978 | The callback is one step of the machine |
| JsonReader.Reader.ReadEndArray | mongodb-1.2.4/src/libbson/src/bson/bson-json.c:981-1001 | The callback is one step of the machine |
| JsonReader.Reader.Deliver | mongodb-1.2.4/src/libbson/src/bson/bson-json.c:1004-1016 | Events are delivered until a callback returns 0: a run of the machine |
| JsonReader.Reader.Read | mongodb-1.2.4/src/libbson/src/bson/bson-json.c:1085-1164 | Reading a document succeeds exactly for an array or plain object that has a meaning and is at most 100 levels deep, and appends its fields to the target, the texts in it read by the readers of libbson |
| Strtoll.AsciiStrtoll | mongodb-1.2.4/src/libbson/src/bson/bson-string.c:694-803 | In any base from 2 to 36, or with the base found in the text: the number written, with its sign and in range, or the nearest int64_t and ERANGE, or EINVAL; where its digits end, or which digit went out of range, or no end at all; and no step overflows 64 bits |
| StrtollTexts.NumberIsRead | mongodb-1.2.4/src/libbson/src/bson/bson-string.c:694-803 | White space, a sign or none, a prefix where the base allows it, digits of the base in either case and anything that stops them: the number read is the one they denote, with that sign, up to their end; or the nearest in range, with an error |
| Strtoll.CutoffDecides | mongodb-1.2.4/src/libbson/src/bson/bson-string.c:744-788 | The cutoff tells before a digit is added whether the number stays in range, for every base |
| Strtoll.WholeNumberIff | mongodb-1.2.4/src/libbson/src/bson/bson-string.c:694-803 | In base 10 the end is that of the text, without an error, exactly when the text is white space, a sign perhaps, and digits of a number in range; no end and no error exactly when a sign has no digit behind it |
| Strtoll.LongFromString | mongodb-1.2.4/src/libbson/src/bson/bson-json.c:562-577 | A $numberLong is read exactly when it is such a number and nothing else |
| Strtoll.DateTimeFromString | mongodb-1.2.4/src/BSON/UTCDateTime.c:66-88 | A date from a text is that number of milliseconds; a sign without a digit behind it passes for 0, whatever follows |
| JsonTexts.ReadBinary | mongodb-1.2.4/src/libbson/src/bson/bson-json.c:549-561 | A $binary text is read exactly when the sizing pass accepts it, and gives its whole bytes whatever the leftover bits |
| BsonReading.IterationInvertsTheFormat | mongodb-1.2.4/src/libbson/src/bson/bson-iter.c:425-738 | Iterating the bytes of any storable fields, children included, gives back those fields, whatever follows in memory |
| BsonReading.FirstBack | mongodb-1.2.4/src/libbson/src/bson/bson-iter.c:456-738 | The first of some written fields is decoded with its key, its extent and its value, for every type |
| BsonSearch.ReadingWalks | mongodb-1.2.4/src/libbson/src/bson/bson-iter.c:713-737 | Where all fields can be read there is one step a field, and then iteration stops with error offset 0 |
| BsonFields.FieldBounds | mongodb-1.2.4/src/libbson/src/bson/bson-iter.c:470-730 | After a successful step on any bytes every slice the accessors report lies in the field; strings, patterns and dbpointers end in NUL, the key at its first NUL |
| BsonFields.ScopeFits | mongodb-1.2.4/src/libbson/src/bson/bson-iter.c:646-695 | The scope test, though its sum wraps at 32 bits, means that code and scope fill the field |
| BsonCursor.DecodeAdvances | mongodb-1.2.4/src/libbson/src/bson/bson-iter.c:713-737 | A successful step moves strictly ahead and stays before the last byte; a refusal has an error offset |
| BsonCursor.StrayIsHarmless | mongodb-1.2.4/src/libbson/src/bson/bson-iter.c:573-583 | The two bytes read before the bounds are known decide nothing but the offset of an error |
| BsonAcceptance.StepsIff | mongodb-1.2.4/src/libbson/src/bson/bson-iter.c:425-770 | On any bytes a step succeeds, and goes on at a given offset, exactly when the key ends and data of the type fill the bytes up to there, before the last byte |
| BsonAcceptance.ErrorsAreAt | mongodb-1.2.4/src/libbson/src/bson/bson-iter.c:430-737 | A refusal is reported at the data, but at the type byte or the last byte for a pattern, at the byte that should be a NUL, and at the length or scope of code that do not fit |
| BsonAcceptance.StringFills | mongodb-1.2.4/src/libbson/src/bson/bson-iter.c:1171-1189 | A text is what lies between its length and its NUL |
| BsonAcceptance.BinaryFills | mongodb-1.2.4/src/libbson/src/bson/bson-iter.c:800-842 | Binary data are what follows the subtype, or for the deprecated subtype the second length |
| BsonAcceptance.DbPointerFills | mongodb-1.2.4/src/libbson/src/bson/bson-iter.c:1374-1407 | The name lies before its NUL, and the id in the last twelve bytes |
| BsonAcceptance.TypeIsKept | mongodb-1.2.4/src/libbson/src/bson/bson-iter.c:465-716 | A value read has the type byte of its field |
| LittleEndian.LowFirst64 | mongodb-1.2.4/src/libbson/src/bson/bson-endian.h:86-110 | Byte k of a stored number is its digit of weight 256^k |
| BsonSearch.WalkTiles | mongodb-1.2.4/src/libbson/src/bson/bson-iter.c:439-737 | On any document that ends in a zero byte the fields stepped over tile it without gap or overlap up to where iteration stops, the last byte exactly when there was no error |
| BsonSearch.TileCovers | mongodb-1.2.4/src/libbson/src/bson/bson-iter.c:439-737 | In such a tiling every byte lies in exactly one field |
| BsonSearch.DescendantIsFirstMatch | mongodb-1.2.4/src/libbson/src/bson/bson-iter.c:312-345 | Dotted lookup succeeds exactly when taking the first field of each name, through documents and arrays only, does, and lands on that field |
| BsonAcceptance.LookupIsAlong | mongodb-1.2.4/src/libbson/src/bson/bson-iter.c:312-345 | Names without dots, joined by dots, are looked up one after the other, each the first field of its name |
| BsonSearch.FirstField | mongodb-1.2.4/src/libbson/src/bson/bson-iter.c:199-223 | Found exactly when some field has the name, and then the first of them |
| BsonIter.Iter.Init | mongodb-1.2.4/src/libbson/src/bson/bson-iter.c:45-70 | A document of 5 bytes or more starts before its first field; a shorter one is refused |
| BsonIter.Iter.FillDataFields | mongodb-1.2.4/src/libbson/src/bson/bson-iter.c:465-716 | The switch over the types computes the extent or the refusal |
| BsonIter.Iter.Next | mongodb-1.2.4/src/libbson/src/bson/bson-iter.c:425-770 | One step: the offsets of the next field, or an invalid iterator with its error offset |
| BsonIter.Iter.ReadAll | mongodb-1.2.4/src/libbson/src/bson/bson-iter.c:425-770 | Stepping with bson_iter_next to the end and reading each field gives the fields and error offset 0, or nothing |
| BsonIter.Iter.KeyIs | mongodb-1.2.4/src/libbson/src/bson/bson-iter.c:188-190 | strncmp and the NUL after it: the keys are equal |
| BsonIter.Iter.FindWithLen | mongodb-1.2.4/src/libbson/src/bson/bson-iter.c:199-223 | The search stops on the first field of that name, or at the end; a length of 0 finds nothing |
| BsonIter.Iter.FindKey | mongodb-1.2.4/src/libbson/src/bson/bson-iter.c:243-252 | With the length -1 the search finds the first field of that name, the empty name included |
| BsonIter.Iter.Recurse | mongodb-1.2.4/src/libbson/src/bson/bson-iter.c:90-121 | A fresh iterator over a document or array, and nothing else |
| BsonIter.Iter.FindDescendant | mongodb-1.2.4/src/libbson/src/bson/bson-iter.c:312-345 | The dotted search as it runs |
| Md5.AbsorbTwice | mongodb-1.2.4/src/libbson/src/bson/bson-md5.c:342-380 | Two appends leave the state of one append of both |
| Md5.ChunkIndependence | mongodb-1.2.4/src/libbson/src/bson/bson-md5.c:342-380 | However a message is split into appends, chaining value, bit count and waiting bytes are those of one append |
| Md5.AfterMessage | mongodb-1.2.4/src/libbson/src/bson/bson-md5.c:342-380 | The state after a message: its full blocks folded, its length in bits modulo 2^64, its rest |
| Md5.FinishIsRfc | mongodb-1.2.4/src/libbson/src/bson/bson-md5.c:382-404 | Appending padding and length gives the digest of sections 3.1 to 3.5 of RFC 1321, for every message and block function |
| Md5Padding.PaddingIsOneBit | mongodb-1.2.4/src/libbson/src/bson/bson-md5.c:386-391 | Read as a binary number k bytes of padding are 2^(8k - 1): a one bit and then zeros |
| Md5Padding.PaddedIsRfc | mongodb-1.2.4/src/libbson/src/bson/bson-md5.c:395-401 | What is digested is the message, a one bit, zeros up to 8 bytes short of a block, and the length in bits modulo 2^64 with the low-order byte first (sections 3.1 and 3.2 of RFC 1321) |
| Md5Padding.StartBytes | mongodb-1.2.4/src/libbson/src/bson/bson-md5.c:333-340 | The first chaining value has the bytes of section 3.3 |
| Md5Padding.DigestIsRfc | mongodb-1.2.4/src/libbson/src/bson/bson-md5.c:373-404 | The digest is the chaining value after the blocks in order, byte k being byte k % 4, lowest first, of word k / 4 |
| Md5Context.CountCarries | mongodb-1.2.4/src/libbson/src/bson/bson-md5.c:355-359 | The two 32-bit words of the count, with the carry, count modulo 2^64 |
| Md5Context.Context.Append | mongodb-1.2.4/src/libbson/src/bson/bson-md5.c:342-380 | The buffered append, with its partial blocks, is the one-shot one |
| Md5Context.Context.Finish | mongodb-1.2.4/src/libbson/src/bson/bson-md5.c:382-404 | The digest bytes of everything appended |
| BconTheorems.BuildingIsRecursion | mongodb-1.2.4/src/libbson/src/bson/bcon.c:771-840 | Building a tree of at most 100 frames appends exactly its recursive fields and ends at the frame it started from |
| BconTheorems.IndexesAreConsecutive | mongodb-1.2.4/src/libbson/src/bson/bcon.c:725-750 | With or without spliced documents the keys of an array are consecutive indexes |
| BconTheorems.BuildThenExtract | mongodb-1.2.4/src/libbson/src/bson/bcon.c:771-939 | From the document built for a tree with distinct keys the pattern of the same shape yields in order every leaf that carries a value, nothing for null, undefined, min and max keys, and the extractor is back at frame 0 |
| BconTheorems.ExtractItem | mongodb-1.2.4/src/libbson/src/bson/bcon.c:864-939 | At any frame the pattern of a value yields its leaves and leaves the frame as it was |
| BconPatterns.ExtractionIff | mongodb-1.2.4/src/libbson/src/bson/bcon.c:864-939 | Any pattern of at most 100 frames on any document: it matches exactly when every name and index asked for is there, every place finds a value of its type and every bracket a document or array; then it yields the values asked for in order, and else nothing matches |
| BconPatterns.BareStrings | mongodb-1.2.4/src/libbson/src/bson/bcon.c:471-600 | A bare string that begins with a bracket or brace is that bracket or brace, whatever follows, for the builder and the extractor alike |
| BconPatterns.BuilderRefuses | mongodb-1.2.4/src/libbson/src/bson/bcon.c:55-86 | Brackets, names and ends out of place fail the assertions of the builder, and so does a frame too many |
| BconPatterns.ExtractorRefuses | mongodb-1.2.4/src/libbson/src/bson/bcon.c:55-86 | So do they those of the extractor |
| BconContext.AppendContext.ConcatArray | mongodb-1.2.4/src/libbson/src/bson/bcon.c:725-750 | The splice gives back the index already taken and counts on from it |
| BconContext.AppendContext.AppendArgs | mongodb-1.2.4/src/libbson/src/bson/bcon.c:771-840 | The builder as it runs, failed assertions included |
| BconContext.AppendContext.AppendTree | mongodb-1.2.4/src/libbson/src/bson/bcon.c:771-840 | The builder run on the arguments of a tree |
| BconContext.ExtractContext.FindHere | mongodb-1.2.4/src/libbson/src/bson/bcon.c:908-910 | The first field of that name, the empty name included |
| BconContext.ExtractContext.ExtractSingle | mongodb-1.2.4/src/libbson/src/bson/bcon.c:330-453 | The type is checked first; null, undefined, min and max keys and skips store nothing, an iterator takes any value |
| BconContext.ExtractContext.ExtractArgs | mongodb-1.2.4/src/libbson/src/bson/bcon.c:864-939 | The extractor as it runs, failed assertions included |
| PhpTheorems.RoundTripsIff | mongodb-1.2.4/src/bson.c:1196-1580 | Encoding an array and visiting the result gives the same array without an exception exactly when every text is valid UTF-8, every key is free of NUL and valid UTF-8, no code holds a NUL, and everything has a BSON type |
| PhpTheorems.ValuePasses | mongodb-1.2.4/src/bson.c:199-949 | Such a value is one field, and the visitor makes it again, with code cut at its first NUL |
| PhpTheorems.SurvivorsPass | mongodb-1.2.4/src/bson.c:1396-1400 | What is encoded without an exception and visited to the end had valid texts and keys and BSON types throughout |
| PhpShapes.EncodingStandsFor | mongodb-1.2.4/src/bson.c:1010-1272 | What is encoded without an exception is one field of the type and contents of the value, at every depth: type 0x04 for just the arrays whose keys are 0, 1, 2 and so on in order, 0x03 for just the other arrays, and the narrower integer type wherever it holds the number |
| PhpShapes.SmallestInteger | mongodb-1.2.4/src/bson.c:1217-1228 | An integer takes the fewest bytes that hold it |
| PhpShapes.EntriesEncoded | mongodb-1.2.4/src/bson.c:1396-1400 | A key with a NUL throws and ends the encoding; an entry that throws does not end it |
| PhpShapes.NoFieldIff | mongodb-1.2.4/src/bson.c:1230-1272 | Only a text that is not UTF-8 and a value without a BSON type leave no field |
| PhpShapes.DocumentsMerge | mongodb-1.2.4/src/bson.c:731-830 | Where the keys of a document repeat, each comes once, where it first came, with the value that came last |
| PhpShapes.ArraysCountUp | mongodb-1.2.4/src/bson.c:832-949 | An array takes what its fields make under new indexes, whatever the keys were |
| PhpShapes.VisitableIff | mongodb-1.2.4/src/bson.c:199-949 | A value can be visited exactly when its texts are valid UTF-8, and so are its keys but the empty one |
| PhpShapes.NothingIff | mongodb-1.2.4/src/bson.c:699-726 | Only undefined, dbpointer and symbol fields are passed over |
| PhpShapes.FlagsAreSorted | mongodb-1.2.4/php_phongo.c:1682-1697 | The flags of a regular expression come out in order, none lost and none added |
| PhpBytes.BytesRoundTripIff | mongodb-1.2.4/src/bson.c:1196-1580 | For arrays whose characters are bytes and that fit a document: encoding, writing the bytes of the document and decoding those bytes gives the same array exactly when it is clean in that sense |
| PhpBytes.BytesAreFields | mongodb-1.2.4/src/libbson/src/bson/bson-iter.c:1786-2047 | Decoding the bytes of any storable fields does what visiting those fields does, whatever follows them in memory |
| PhpBytes.DocumentsOnly | mongodb-1.2.4/src/libbson/src/bson/bson-reader.c:569-605 | Bytes are decoded only when their length is plausible and the last byte of the document is zero |
| PhpBytes.ChildIsPassedOverIff | mongodb-1.2.4/src/libbson/src/bson/bson-iter.c:1834-1865 | A document, array or scope inside is passed over exactly when it is shorter than five bytes or does not end in a zero byte |
| PhpTheorems.SymbolKeyIsLongIff | mongodb-1.2.4/src/bson.c:1409-1416 | A key comes back as an integer exactly when it is the decimal text of that integer |
| PhpContext.IsArrayOrDocument | mongodb-1.2.4/src/bson.c:952-1008 | A PHP array becomes a BSON array exactly when its keys are 0, 1, 2 and so on in order |
| PhpContext.BsonAppend | mongodb-1.2.4/src/bson.c:1078-1272 | One value is appended, or an exception thrown and nothing appended |
| PhpContext.ZvalToBson | mongodb-1.2.4/src/bson.c:1274-1496 | The loop over the entries, the NUL check, and the id that is added unless there is one |
| PhpContext.OneIdField | mongodb-1.2.4/src/bson.c:1402-1478 | Asked for an id, the encoder leaves exactly one field _id at the root: the one there is, or an object id behind all the others |
| PhpContext.VisitState.VisitScalar | mongodb-1.2.4/src/bson.c:199-726 | A value without fields joins the array under its key or the next index; the deprecated types are passed over, a text that is not UTF-8 stops the visit |
| PhpContext.VisitState.VisitChild | mongodb-1.2.4/src/bson.c:755-949 | A document or array joins by way of a state and an iterator of its own, is passed over when its bytes are no document, and stops the visit when it cannot be visited to the end |
| PhpContext.VisitState.VisitAll | mongodb-1.2.4/src/libbson/src/bson/bson-iter.c:1786-2047 | Stepping through any bytes and visiting each field: stopped by a visitor, or with an error offset for corrupt bytes and keys that are not UTF-8, exactly when the bytes cannot be visited, and else the array they make |
| PhpContext.BsonToZval | mongodb-1.2.4/src/bson.c:1518-1580 | The root array of the document at the start of any bytes, or a refusal |

## Left out

- DecimalTheorems.ParsingIsExactIff: an exponent field beyond an int in a text of 2 GB less 64 KB or more has no statement: C leaves open what scanf stores, and there it matters.
- DecimalAcceptance.ParsedExactlyIff: as above; `AcceptedIff` has no such limit.
- Decimal128.ToString: for buffers that hold the text and its NUL; the code checks no length, and `PrintingFitsIff` says for which words the documented 43 bytes are one too few.
- Base64Codec.TailAccepted: a byte from 128 on is looked up as where `char` is unsigned; where it is signed the source reads before the reverse map.
- Base64Codec.PtonDo: as above.
- Base64Codec.PtonLen: as above.
- JsonTexts.ReadBinary: as above; the JSON reader takes its answer for texts that are not ASCII from `Environment`.
- Strtoll.AsciiStrtoll: for base 0 and the bases 2 to 36; the source divides by whatever base it is given.
- JsonReader.Reader.ReadEndMap: where bytes of another union member are read, as in `$oid` followed by `$regex` alone, and where there is no level open to append to, it ends in `Outside`.
- JsonReader.Reader.Read: yajl is the sequence of events of a tree; buffers, refills, the result for white space and error messages are not modelled.
- JsonWriting.WrittenIsReadIff: for texts that are valid UTF-8; a regular expression, symbol or collection name, which are written without escapes, must need none; what the digits of a double are read as is a parameter, and nan and inf, which JSON does not have, are left out; levels beyond BSON_MAX_RECURSION, written as `{ ... }`, are not modelled.
- JsonTheorems.StreamingIsRecursion: for trees whose special objects hold objects only where a last `$date` or `$timestamp` takes one, and read no bytes of another union member; `RunSpecial` says what the others among these do, and the machine itself takes any events.
- BsonReading.IterationInvertsTheFormat: for documents of at most 2^31 - 1 bytes; code with a scope is read for stored lengths of at least 1, and nothing checks the last byte of its code.
- Md5.FinishIsRfc: the 64 steps of the block function are not spelled out.
- Md5Context.Context.Append: for at most 2^31 - 1 bytes a call; with more, the signed `left` is negative and becomes the length of a copy.
- BconTheorems.BuildThenExtract: the union of output pointers is the list of values stored through them.
- BconContext.ExtractContext.ExtractArgs: output pointers are a list of values, as above.
- PhpTheorems.RoundTripsIff: with a type map of native arrays, on 64-bit PHP 7; plain objects, bsonSerialize, bsonUnserialize, `__pclass` and references are not modelled.
- PhpBytes.BytesRoundTripIff: as above, and for arrays whose document has at most 2^31 - 1 bytes.
- PhpContext.BsonAppend: for arrays and the BSON classes; other objects and references are not modelled.
- PhpContext.ZvalToBson: for arrays only.
- PhpContext.VisitState.VisitChild: with a type map of native arrays; an array index beyond a long ends the visit.
- PhpContext.VisitState.VisitAll: the scope of code is fields, where the source keeps its bytes; a scope whose fields cannot be read stops the visit here. Messages for unsupported types are not modelled.
- PhpContext.BsonToZval: with a native array at the root.
- Calendar arithmetic of ISO dates, UTF-8 validation and scanf itself are parameters.
- Manager, cursors, queries, bulk writes, concerns and preferences only pass options to libmongoc, which is not part of this model.
- Zend object handlers, refcounts, exceptions as objects, atomics, clocks, object id generation and memory allocation.
- bson_append functions at the level of bytes: documents are trees while they are built, and `BsonBytes` gives the bytes of a finished tree.
