/**
 The builder and the extractor of bcon.c: two machines that read the same kind of argument list
 over a stack of at most BCON_STACK_MAX frames.
 */
module Bcon {
  import opened Bson
  import opened BsonBuilding
  import opened Words
  import BsonBytes
  import BsonSearch

  const BCON_STACK_MAX: nat := 100

  // The builder.

  /** An argument: a bare string, a typed value, a document to splice in, or the NULL at the end. */
  datatype Arg = Mark(s: string) | Typed(value: Value) | Spliced(fields: seq<Field>) | Last

  datatype Token =
    | EndToken
    | DocStart
    | DocEnd
    | ArrayStart
    | ArrayEnd
    | TextToken(s: string)
    | ScalarToken(value: Value)
    | SpliceToken(fields: seq<Field>)

  /** A bare string that begins with a bracket or a brace is that bracket or brace. */
  function Bracket(s: string): Option<Token>
  {
    if s == "" then None
    else if s[0] == '{' then Some(DocStart)
    else if s[0] == '}' then Some(DocEnd)
    else if s[0] == '[' then Some(ArrayStart)
    else if s[0] == ']' then Some(ArrayEnd)
    else None
  }

  /** _bcon_append_tokenize. */
  function TokenOf(arg: Arg): Token
  {
    match arg
    case Last => EndToken
    case Mark(s) => if Bracket(s).Some? then Bracket(s).value else TextToken(s)
    case Typed(v) => if v.Utf8? then TextToken(v.text) else ScalarToken(v)
    case Spliced(fs) => SpliceToken(fs)
  }

  /** How building ends: at the NULL, at a failed assertion, or beyond the arguments. */
  datatype Appended = Finished(d: Building) | Aborted | Starved

  /** The fields of a spliced document under consecutive indexes from i on. */
  function Renumbered(fs: seq<Field>, i: nat): seq<Field>
  {
    if fs == [] then [] else [Field(IndexKey(i), fs[0].value)] + Renumbered(fs[1..], i + 1)
  }

  function Popped(d: Building, isArray: bool): Option<Building>
    requires d.stack.Open?
  {
    var top, outer := d.stack.top, d.(stack := d.stack.outer);
    if top.isArray != isArray || outer.stack.Bottom? then None
    else Some(AddFields(outer, [Field(top.begun, Container(isArray, top.fields))]))
  }

  function Pushed(d: Building, isArray: bool, key: string): Option<Building>
  {
    if Height(d.stack) >= BCON_STACK_MAX then None else Some(OpenLevel(d, isArray, key))
  }

  /** A value token under its key; in an array the key has already used up its index. */
  function AppendValue(d: Building, key: string, token: Token): (r: Option<Building>)
    requires d.stack.Open?
    ensures r.Some? ==> r.value.stack.Open?
  {
    match token
    case EndToken => None
    case SpliceToken(fs) =>
      if !d.stack.top.isArray || d.stack.top.next == 0 then None
      else
        var first := d.stack.top.next - 1;
        Some(AddFields(WithNext(d, first + |fs|), Renumbered(fs, first)))
    case DocStart => Pushed(d, false, key)
    case DocEnd => Popped(d, false)
    case ArrayStart => Pushed(d, true, key)
    case ArrayEnd => Popped(d, true)
    case TextToken(s) => Some(AddFields(d, [Field(key, Utf8(s))]))
    case ScalarToken(v) => Some(AddFields(d, [Field(key, v)]))
  }

  function WithNext(d: Building, next: nat): Building
    requires d.stack.Open?
  {
    d.(stack := Open(d.stack.top.(next := next), d.stack.outer))
  }

  /** The next argument as a value under the key. */
  function AppendNext(d: Building, key: string, args: seq<Arg>): Appended
    requires d.stack.Open? && args != []
    decreases |args|, 0
  {
    var next := AppendValue(d, key, TokenOf(args[0]));
    if next.None? then Aborted else Append(next.value, args[1..])
  }

  /** bcon_append_ctx_va. */
  function Append(d: Building, args: seq<Arg>): Appended
    requires d.stack.Open?
    decreases |args|
  {
    if args == [] then Starved
    else if d.stack.top.isArray then AppendNext(Skip(d, 1), IndexKey(d.stack.top.next), args)
    else
      match TokenOf(args[0])
      case EndToken => Finished(d)
      case DocEnd =>
        var outer := Popped(d, false);
        if outer.None? then Aborted else Append(outer.value, args[1..])
      case SpliceToken(fs) => Append(AddFields(d, fs), args[1..])
      case TextToken(key) => if |args| < 2 then Starved else AppendNext(d, key, args[1..])
      case _ => Aborted
  }

  /** bcon_append_ctx_init on a document with the given fields. */
  function Beginning(target: seq<Field>): Building
  {
    Building(target, Open(Level(false, 0, "", []), Bottom))
  }

  // The extractor.

  /** What is asked of a value: a type, to be stored or only checked, or any value as an iterator. */
  datatype Want = OfType(code: Byte) | SkipType(code: Byte) | AnyValue

  /** CHECK_TYPE. */
  predicate Accepts(w: Want, v: Value) { w.AnyValue? || BsonBytes.TypeCode(v) == w.code }

  /** Null, undefined, min key and max key say all there is by their type: nothing is stored for them. */
  predicate HasOutput(code: Byte) { code != 0x06 && code != 0x0a && code != 0x7f && code != 0xff }

  /** What goes through the output pointers. */
  function Output(w: Want, v: Value): seq<Value>
  {
    match w
    case OfType(code) => if HasOutput(code) then [v] else []
    case SkipType(_) => []
    case AnyValue => [v]
  }

  /** An argument of the extractor: a key or bracket, or a place for a value. */
  datatype Pattern = KeyMark(s: string) | Place(want: Want) | Terminator

  datatype PatternToken =
    | EndOfPattern
    | Opens(isArray: bool)
    | Closes(isArray: bool)
    | Name(s: string)
    | Hole(want: Want)

  /** _bcon_extract_tokenize. */
  function PatternOf(p: Pattern): PatternToken
  {
    match p
    case Terminator => EndOfPattern
    case Place(want) => Hole(want)
    case KeyMark(s) =>
      match Bracket(s)
      case Some(DocStart) => Opens(false)
      case Some(DocEnd) => Closes(false)
      case Some(ArrayStart) => Opens(true)
      case Some(ArrayEnd) => Closes(true)
      case _ => Name(s)
  }

  /** A document or array that is being looked into. */
  datatype View = View(isArray: bool, next: nat, fields: seq<Field>)

  datatype Views = NoViews | Views(top: View, outer: Views)

  function Depth(v: Views): nat
  {
    match v case NoViews => 0 case Views(_, outer) => 1 + Depth(outer)
  }

  /** Extraction matches and yields the values for its places, or does not match, or goes wrong. */
  datatype Extracted = Matched(values: seq<Value>, end: Views) | Mismatch | Broken

  /** bson_iter_find from the start of the fields. */
  function Lookup(fs: seq<Field>, key: string): Option<Value> { BsonSearch.FirstField(fs, key) }

  function Closed(v: Views, isArray: bool): Option<Views>
    requires v.Views?
  {
    if v.top.isArray != isArray || v.outer.NoViews? then None else Some(v.outer)
  }

  /** bcon_extract_ctx_va, with the values yielded so far. */
  function Extract(v: Views, ps: seq<Pattern>, yielded: seq<Value>): Extracted
    requires v.Views?
    decreases |ps|
  {
    if ps == [] then Broken
    else if v.top.isArray then
      ExtractValue(v.(top := v.top.(next := v.top.next + 1)), IndexKey(v.top.next), ps, yielded)
    else
      match PatternOf(ps[0])
      case EndOfPattern => Matched(yielded, v)
      case Closes(isArray) =>
        var outer := if isArray then None else Closed(v, false);
        if outer.None? then Broken else Extract(outer.value, ps[1..], yielded)
      case Name(key) => if |ps| < 2 then Broken else ExtractValue(v, key, ps[1..], yielded)
      case _ => Broken
  }

  function ExtractValue(v: Views, key: string, ps: seq<Pattern>, yielded: seq<Value>): Extracted
    requires v.Views? && ps != []
    decreases |ps|, 0
  {
    match PatternOf(ps[0])
    case EndOfPattern => Broken
    case Closes(isArray) =>
      var outer := Closed(v, isArray);
      if outer.None? then Broken else Extract(outer.value, ps[1..], yielded)
    case Opens(isArray) =>
      var found := Lookup(v.top.fields, key);
      if found.None? || (if isArray then !found.value.Array? else !found.value.Document?) then Mismatch
      else if Depth(v) >= BCON_STACK_MAX then Broken
      else Extract(Views(View(isArray, 0, found.value.fields), v), ps[1..], yielded)
    case Hole(want) =>
      var found := Lookup(v.top.fields, key);
      if found.None? || !Accepts(want, found.value) then Mismatch
      else Extract(v, ps[1..], yielded + Output(want, found.value))
    case Name(_) =>
      if Lookup(v.top.fields, key).None? then Mismatch else Broken
  }
}
