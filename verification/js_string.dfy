/** The two JavaScript string operations the request builder and the verdict rely on. */
module JsString {

  /**
    How `String.prototype.slice` turns an argument into a position: a negative
    argument counts back from the end, and the result is clamped to `[0, len]`.
  */
  function ClampIndex(i: int, len: nat): (r: nat)
    ensures r <= len
    ensures 0 <= i <= len ==> r == i
    ensures i < 0 <= len + i ==> r == len + i
  {
    if i < 0 then (if len + i < 0 then 0 else len + i)
    else if i > len then len
    else i
  }

  /** `s.slice(begin, end)` */
  function Slice(s: string, begin: int, end: int): string {
    var from := ClampIndex(begin, |s|);
    var to := ClampIndex(end, |s|);
    if from < to then s[from..to] else ""
  }

  /** `s.slice(begin)` */
  function SliceFrom(s: string, begin: int): string {
    Slice(s, begin, |s|)
  }

  /** `s.slice(0, n)` is the first `n` characters, or all of `s` when it is shorter. */
  lemma SlicePrefix(s: string, n: nat)
    ensures Slice(s, 0, n) == if n <= |s| then s[..n] else s
    ensures |Slice(s, 0, n)| == if n <= |s| then n else |s|
    ensures s == Slice(s, 0, n) + s[|Slice(s, 0, n)|..]
  {
  }

  /** `s.slice(-n)` is the last `n` characters, or all of `s` when it is shorter. */
  lemma SliceLast(s: string, n: nat)
    requires n > 0
    ensures SliceFrom(s, -(n as int)) == if n <= |s| then s[|s| - n..] else s
    ensures |SliceFrom(s, -(n as int))| == if n <= |s| then n else |s|
    ensures s == s[..|s| - |SliceFrom(s, -(n as int))|] + SliceFrom(s, -(n as int))
  {
  }

  predicate IsLower(c: char) {
    'a' <= c <= 'z'
  }

  /** Upper-case of one character (ASCII letters only). */
  function UpperChar(c: char): char {
    if IsLower(c) then (c as int - 'a' as int + 'A' as int) as char else c
  }

  /** `s.toUpperCase()` for the ASCII range. */
  function ToUpperCase(s: string): (r: string)
    ensures |r| == |s|
    ensures forall i | 0 <= i < |r| :: !IsLower(r[i])
    ensures forall i | 0 <= i < |s| :: !IsLower(s[i]) ==> r[i] == s[i]
    ensures forall i | 0 <= i < |s| :: IsLower(s[i]) ==> r[i] as int == s[i] as int - 32
  {
    seq(|s|, i requires 0 <= i < |s| => UpperChar(s[i]))
  }

  /** Upper-casing twice is upper-casing once. */
  lemma ToUpperCaseIdempotent(s: string)
    ensures ToUpperCase(ToUpperCase(s)) == ToUpperCase(s)
  {
  }

  /** Two strings that differ only in the case of letters upper-case alike. */
  lemma ToUpperCaseIgnoresCase(s: string, t: string)
    requires |s| == |t|
    requires forall i | 0 <= i < |s| :: s[i] == t[i] || UpperChar(s[i]) == t[i] || s[i] == UpperChar(t[i])
    ensures ToUpperCase(s) == ToUpperCase(t)
  {
    var us := ToUpperCase(s);
    var ut := ToUpperCase(t);
    forall i | 0 <= i < |s|
      ensures us[i] == ut[i]
    {
      assert UpperChar(UpperChar(s[i])) == UpperChar(s[i]);
      assert UpperChar(UpperChar(t[i])) == UpperChar(t[i]);
    }
  }
}
