/** Texts as the bytes that stand for them on the wire and in images. */
module AsciiText {
  import opened Bytes

  function Ascii(text: string): (r: seq<byte>)
    ensures |r| == |text|
  {
    seq(|text|, i requires 0 <= i < |text| => text[i] as int % 256)
  }

  lemma FourBytes(text: string)
    requires |text| == 4
    ensures Ascii(text) == [text[0] as int % 256, text[1] as int % 256, text[2] as int % 256, text[3] as int % 256]
  {
  }
}
