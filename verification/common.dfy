/**
 * Small vocabulary shared by every module of the file-server model:
 * bytes, an optional value, and the handful of Python `str` operations
 * (`startswith`, `in`, ASCII `lower`) the request handler relies on.
 */
module Common {

  /** One octet of a file or of an encoded string. */
  type byte = x: int | 0 <= x < 256

  /** Python's `None`-or-value, as returned by the encoding detector and MIME lookup. */
  datatype Option<+T> = None | Some(value: T)

  /** `s.startswith(prefix)` */
  predicate StartsWith(s: string, prefix: string) {
    |prefix| <= |s| && s[..|prefix|] == prefix
  }

  /** `sub in s` for strings: `sub` occurs at some offset of `s`. */
  predicate Contains(s: string, sub: string) {
    exists i :: 0 <= i <= |s| - |sub| && StartsWith(s[i..], sub)
  }

  /** `'..' in s`, spelled on two adjacent characters. */
  predicate HasDotDot(s: string) {
    exists i :: 0 <= i < |s| - 1 && s[i] == '.' && s[i + 1] == '.'
  }

  lemma HasDotDotIsContains(s: string)
    ensures HasDotDot(s) <==> Contains(s, "..")
  {
    if HasDotDot(s) {
      var i :| 0 <= i < |s| - 1 && s[i] == '.' && s[i + 1] == '.';
      assert s[i..][..2] == "..";
    }
    if Contains(s, "..") {
      var i :| 0 <= i <= |s| - 2 && StartsWith(s[i..], "..");
      assert s[i] == s[i..][..2][0] && s[i + 1] == s[i..][..2][1];
    }
  }

  predicate IsAsciiChar(c: char) {
    c as int < 128
  }

  /** Lower-casing of the ASCII letters only; every other character is kept. */
  function AsciiLowerChar(c: char): (r: char)
    ensures 'A' <= c <= 'Z' ==> r as int == c as int + 32
    ensures !('A' <= c <= 'Z') ==> r == c
  {
    if 'A' <= c <= 'Z' then (c as int + 32) as char else c
  }

  function AsciiLower(s: string): (r: string)
    ensures |r| == |s|
    ensures forall i :: 0 <= i < |s| ==> r[i] == AsciiLowerChar(s[i])
  {
    if s == [] then [] else [AsciiLowerChar(s[0])] + AsciiLower(s[1..])
  }

  /** The byte sequence of an all-ASCII string (`str.encode('ascii')`). */
  function AsciiBytes(s: string): (r: seq<byte>)
    requires forall i :: 0 <= i < |s| ==> IsAsciiChar(s[i])
    ensures |r| == |s|
    ensures forall i :: 0 <= i < |s| ==> r[i] == s[i] as int
  {
    if s == [] then [] else
    assert IsAsciiChar(s[0]);
    var b: byte := s[0] as int;
    [b] + AsciiBytes(s[1..])
  }
}
