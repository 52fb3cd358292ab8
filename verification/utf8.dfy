/** UTF-8 decoding of a byte sequence into text, failing on any ill-formed
    sequence, following the well-formed byte sequences of RFC 3629, section 4.
    Both the chunk type display and the chunk data text view decode this way. */
module Utf8 {
  import opened Utils
  import opened Results

  predicate IsContinuation(b: byte) {
    0x80 <= b <= 0xBF
  }

  /** The number of bytes of the well-formed sequence starting at the head of
      `s`, or 0 when `s` does not start with one. */
  function SequenceLength(s: seq<byte>): (n: nat)
    ensures n <= |s| && (n == 0 || 1 <= n <= 4)
  {
    if |s| == 0 then 0
    else
      var b0 := s[0];
      if b0 < 0x80 then 1
      else if 0xC2 <= b0 <= 0xDF then
        (if 2 <= |s| && IsContinuation(s[1]) then 2 else 0)
      else if 0xE0 <= b0 <= 0xEF then
        var lo: byte := if b0 == 0xE0 then 0xA0 else 0x80;
        var hi: byte := if b0 == 0xED then 0x9F else 0xBF;
        (if 3 <= |s| && lo <= s[1] <= hi && IsContinuation(s[2]) then 3 else 0)
      else if 0xF0 <= b0 <= 0xF4 then
        var lo: byte := if b0 == 0xF0 then 0x90 else 0x80;
        var hi: byte := if b0 == 0xF4 then 0x8F else 0xBF;
        (if 4 <= |s| && lo <= s[1] <= hi && IsContinuation(s[2]) && IsContinuation(s[3]) then 4 else 0)
      else 0
  }

  /** The scalar value encoded by the well-formed sequence at the head of `s`. */
  function ScalarValue(s: seq<byte>): (c: char)
    requires SequenceLength(s) > 0
  {
    var n := SequenceLength(s);
    var cp :=
      if n == 1 then s[0] as int
      else if n == 2 then (s[0] as int - 0xC0) * 0x40 + (s[1] as int - 0x80)
      else if n == 3 then
        (s[0] as int - 0xE0) * 0x1000 + (s[1] as int - 0x80) * 0x40 + (s[2] as int - 0x80)
      else
        (s[0] as int - 0xF0) * 0x4_0000 + (s[1] as int - 0x80) * 0x1000
          + (s[2] as int - 0x80) * 0x40 + (s[3] as int - 0x80);
    cp as char
  }

  /** The text `s` encodes, or `None` when `s` is not well-formed UTF-8.
      ASCII bytes decode one-to-one into the characters with the same code. */
  function Decode(s: seq<byte>): (r: Option<string>)
    ensures (forall i | 0 <= i < |s| :: s[i] < 0x80) ==>
              r.Some? && |r.value| == |s| && forall i | 0 <= i < |s| :: r.value[i] as int == s[i] as int
    decreases |s|
  {
    if |s| == 0 then Some([])
    else
      var n := SequenceLength(s);
      if n == 0 then None
      else
        match Decode(s[n..])
        case None => None
        case Some(rest) => Some([ScalarValue(s)] + rest)
  }

  /** An all-ASCII byte sequence decodes to exactly the text whose character
      codes are its bytes. */
  lemma AsciiDecodes(s: seq<byte>, text: string)
    requires forall i | 0 <= i < |s| :: s[i] < 0x80
    requires |text| == |s| && forall i | 0 <= i < |s| :: text[i] as int == s[i]
    ensures Decode(s) == Some(text)
  {
    var r := Decode(s).value;
    assert forall i | 0 <= i < |s| :: r[i] == text[i] by {
      forall i | 0 <= i < |s|
        ensures r[i] == text[i]
      {
        assert r[i] as int == text[i] as int;
      }
    }
    assert r == text;
  }
}
