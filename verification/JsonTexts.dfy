/** The base64 text inside a special object as it is read, in two passes. */
module JsonTexts {
  import opened CText
  import opened Json
  import opened Words
  import Base64
  import Base64Codec

  /**
   The two passes over a $binary text: the first sizes the buffer and refuses malformed texts,
   the second fills it. Its answer is not looked at, so leftover bits do no harm.
   */
  method ReadBinary(s: CString, rmap: array<int>) returns (bytes: Option<seq<Byte>>)
    requires Base64Codec.IsReverseMap(rmap) && forall k :: 0 <= k < |s| ==> s[k] < (256 as char)
    ensures bytes == BinaryOf(s)
  {
    assert forall k :: 0 <= k < |s| ==> s[k] in s;
    var text: Base64.OctetString := s;
    var len := Base64Codec.PtonLen(text, rmap);
    if len < 0 {
      return None;
    }
    var buf := new Byte[len + 1](_ => 0);
    Base64.SizingAgrees(text);
    var _ := Base64Codec.PtonDo(text, rmap, buf, len + 1);
    ghost var q := Base64.ScanFrom(text, 0, []).q;
    assert buf[..len] == Base64.Data(q);
    return Some(buf[..len]);
  }
}
