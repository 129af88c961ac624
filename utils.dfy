/**
 * Shortening a name to a number of characters for a label. A Rust string is UTF-8: a
 * character takes one to four bytes, and slicing at a byte offset that is not a
 * character boundary panics.
 */
module Utils {
  import opened Wrappers

  /** The number of bytes UTF-8 uses for `c`. */
  function Utf8Len(c: char): (n: nat)
    ensures 1 <= n <= 4
    ensures n == 1 <==> c as int < 0x80
  {
    if c as int < 0x80 then 1
    else if c as int < 0x800 then 2
    else if c as int < 0x1_0000 then 3
    else 4
  }

  /** The byte offset of character number `k` of `s`. */
  function ByteOffset(s: string, k: nat): (b: nat)
    requires k <= |s|
    ensures k <= b
  {
    if k == 0 then 0 else Utf8Len(s[0]) + ByteOffset(s[1..], k - 1)
  }

  /** The number of characters before byte offset `b` of `s`, if `b` is a character boundary. */
  function CharsBefore(s: string, b: nat): (r: Option<nat>)
    ensures r.Some? ==> r.value <= |s| && ByteOffset(s, r.value) == b
    ensures r.None? ==> forall k :: 0 <= k <= |s| ==> ByteOffset(s, k) != b
  {
    if b == 0 then Some(0)
    else if s == [] || b < Utf8Len(s[0]) then None
    else
      match CharsBefore(s[1..], b - Utf8Len(s[0]))
      case None => None
      case Some(k) => Some(k + 1)
  }

  /** Every character of `s` is ASCII. */
  predicate Ascii(s: string) {
    forall k :: 0 <= k < |s| ==> s[k] as int < 0x80
  }

  /** In ASCII text byte offsets and character counts agree. */
  lemma {:induction false} AsciiOffsets(s: string, k: nat)
    requires Ascii(s) && k <= |s|
    ensures ByteOffset(s, k) == k
  {
    if k > 0 {
      assert Ascii(s[1..]) by {
        forall j | 0 <= j < |s[1..]| ensures s[1..][j] as int < 0x80 {
          assert s[1..][j] == s[j + 1];
        }
      }
      AsciiOffsets(s[1..], k - 1);
    }
  }

  /**
   * `abbreviate_string` as written: `s` itself when it has at most `maxChars`
   * characters; otherwise the bytes before offset `idx - 3`, where `idx` is the offset
   * of character `maxChars`, followed by "...". `None` is the panic when `idx - 3`
   * underflows or that offset falls inside a character.
   */
  function AbbreviateAsWritten(s: string, maxChars: nat): (r: Option<string>)
    ensures |s| <= maxChars ==> r == Some(s)
    ensures r.Some? && |s| > maxChars ==>
              exists k :: 0 <= k <= |s| && ByteOffset(s, k) + 3 == ByteOffset(s, maxChars) && r.value == s[..k] + "..."
    ensures |s| > maxChars ==>
              (r.None? <==> forall k :: 0 <= k <= |s| ==> ByteOffset(s, k) + 3 != ByteOffset(s, maxChars))
  {
    if |s| <= maxChars then Some(s)
    else
      var idx := ByteOffset(s, maxChars);
      if idx < 3 then None
      else match CharsBefore(s, idx - 3)
      case None => None
      case Some(k) => assert ByteOffset(s, k) + 3 == idx; Some(s[..k] + "...")
  }

  /** ASCII text is cut to `maxChars - 3` characters and "...": `maxChars` in all. */
  lemma AsciiAbbreviated(s: string, maxChars: nat)
    requires maxChars >= 3 && Ascii(s) && |s| > maxChars
    ensures AbbreviateAsWritten(s, maxChars) == Some(s[..maxChars - 3] + "...")
    ensures |AbbreviateAsWritten(s, maxChars).value| == maxChars
  {
    AsciiOffsets(s, maxChars);
    AsciiOffsets(s, maxChars - 3);
    var r := CharsBefore(s, maxChars - 3);
    if r.Some? {
      AsciiOffsets(s, r.value);
    }
  }

  /** A limit below 3 on longer ASCII text makes `idx - 3` underflow. */
  lemma ShortLimitPanics(s: string, maxChars: nat)
    requires Ascii(s) && maxChars < 3 && |s| > maxChars
    ensures AbbreviateAsWritten(s, maxChars) == None
  {
    AsciiOffsets(s, maxChars);
  }

  /** Five two-byte characters cut at three: the cut lands inside the second character. */
  lemma MultiByteCutPanics()
    ensures AbbreviateAsWritten("ééééé", 3) == None
  {
    var s := "ééééé";
    assert ByteOffset(s, 3) == 6 by {
      assert s[1..][1..][1..] == s[3..];
    }
    assert ByteOffset(s, 1) == 2;
    assert ByteOffset(s, 2) == 4 by {
      assert s[1..][1..] == s[2..];
    }
    assert CharsBefore(s, 3) == None;
  }

  /**
   * The evidently intended shortening: at most `maxChars` characters, keeping the first
   * `maxChars - 3` and marking the cut with "...".
   */
  function Abbreviate(s: string, maxChars: nat): (r: string)
    requires maxChars >= 3
    ensures |s| <= maxChars ==> r == s
    ensures |s| > maxChars ==> |r| == maxChars && r[..maxChars - 3] == s[..maxChars - 3] && r[maxChars - 3..] == "..."
  {
    if |s| <= maxChars then s else s[..maxChars - 3] + "..."
  }

  /** Where the code as written does not panic on ASCII text it agrees with `Abbreviate`. */
  lemma AsciiAgrees(s: string, maxChars: nat)
    requires maxChars >= 3 && Ascii(s)
    ensures AbbreviateAsWritten(s, maxChars) == Some(Abbreviate(s, maxChars))
  {
    if |s| > maxChars {
      AsciiAbbreviated(s, maxChars);
    }
  }

  /** Shortening twice is shortening once. */
  lemma AbbreviateIdempotent(s: string, maxChars: nat)
    requires maxChars >= 3
    ensures Abbreviate(Abbreviate(s, maxChars), maxChars) == Abbreviate(s, maxChars)
  {
  }
}
