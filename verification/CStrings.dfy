/** Strings and optional values shared by the configuration reader and the image table. */
module CStrings {
  import opened Bytes

  datatype Option<T> = None | Some(value: T)

  const BLANK: byte := 32

  type Text = seq<byte>

  // What C makes of a buffer of characters: a string ends at the first NUL.
  function CString(buffer: Text): (s: Text)
    ensures 0 !in s && s <= buffer
    ensures |s| < |buffer| ==> buffer[|s|] == 0
  {
    if buffer == [] || buffer[0] == 0 then [] else [buffer[0]] + CString(buffer[1..])
  }

  lemma CStringIsWhole(buffer: Text)
    ensures CString(buffer) == buffer <==> 0 !in buffer
  {
    assert |CString(buffer)| == |buffer| ==> CString(buffer) == buffer;
  }
}
