/**
 * Go's conversion []byte(s) of a string to the UTF-8 bytes that are
 * published as a message body and that the worker scans.
 */
module Utf8 {
  import opened Common

  /** The byte bytes.Count searches for: '.' */
  const DOT: byte := 0x2E

  /** UTF-8 encoding of one character: ASCII stays a single byte, every other
      character becomes two to four bytes, each at least 0x80. */
  function EncodeRune(c: char): (r: seq<byte>)
    ensures 1 <= |r| <= 4
    ensures c as int < 0x80 ==> r == [c as int as byte]
    ensures c as int >= 0x80 ==> forall k :: 0 <= k < |r| ==> r[k] >= 0x80
  {
    var cp := c as int;
    if cp < 0x80 then [cp as byte]
    else if cp < 0x800 then [(0xC0 + cp / 0x40) as byte, (0x80 + cp % 0x40) as byte]
    else if cp < 0x1_0000 then
      [(0xE0 + cp / 0x1000) as byte, (0x80 + cp / 0x40 % 0x40) as byte, (0x80 + cp % 0x40) as byte]
    else
      [(0xF0 + cp / 0x4_0000) as byte, (0x80 + cp / 0x1000 % 0x40) as byte,
       (0x80 + cp / 0x40 % 0x40) as byte, (0x80 + cp % 0x40) as byte]
  }

  /** []byte(s): the encodings of the characters of s, in order. */
  function Encode(s: string): (r: seq<byte>)
    ensures |r| >= |s|
  {
    if s == [] then [] else EncodeRune(s[0]) + Encode(s[1..])
  }

  lemma RuneDots(c: char)
    ensures multiset(EncodeRune(c))[DOT] == if c == '.' then 1 else 0
  {
    var r := EncodeRune(c);
    if c as int >= 0x80 {
      assert DOT !in r;
    }
  }

  lemma DotsOfConcat(a: seq<byte>, b: seq<byte>)
    ensures multiset(a + b)[DOT] == multiset(a)[DOT] + multiset(b)[DOT]
  {
  }

  lemma DotsOfCons(c: char, s: string)
    ensures multiset([c] + s)['.'] == (if c == '.' then 1 else 0) + multiset(s)['.']
  {
  }

  lemma {:induction false} EncodeKeepsDots(s: string)
    ensures multiset(Encode(s))[DOT] == multiset(s)['.']
  {
    if s != [] {
      var c, tail := s[0], s[1..];
      EncodeKeepsDots(tail);
      RuneDots(c);
      DotsOfConcat(EncodeRune(c), Encode(tail));
      assert s == [c] + tail;
      DotsOfCons(c, tail);
    }
  }
}
