/** Zero-terminated texts stored one after another in a single allocated buffer. */
module PackedText {
  const NUL: char := '\0'

  /** What a C string holds in front of its terminator. */
  type CString = s: seq<char> | NUL !in s

  /** A terminator is found at or after a position. */
  ghost predicate Terminated(s: seq<char>, at: nat)
  {
    exists j :: at <= j < |s| && s[j] == NUL
  }

  /** The string a pointer to position `at` denotes. */
  function CStr(s: seq<char>, at: nat): CString
    decreases |s| - at
  {
    if at >= |s| || s[at] == NUL then [] else [s[at]] + CStr(s, at + 1)
  }

  /** At `at` there is `t` and its terminator. */
  ghost predicate Holds(s: seq<char>, at: nat, t: CString)
  {
    at + |t| < |s| && (forall k :: 0 <= k < |t| ==> s[at + k] == t[k]) && s[at + |t|] == NUL
  }

  lemma {:induction false} HoldsReads(s: seq<char>, at: nat, t: CString)
    requires Holds(s, at, t)
    ensures CStr(s, at) == t && Terminated(s, at)
    decreases |t|
  {
    if |t| > 0 {
      assert s[at] == t[0];
      forall k | 0 <= k < |t[1..]| ensures s[at + 1 + k] == t[1..][k] { assert s[at + (k + 1)] == t[k + 1]; }
      HoldsReads(s, at + 1, t[1..]);
    }
  }

  /** Conversely, whatever a terminated pointer denotes is what the buffer holds there. */
  lemma {:induction false} ReadsHold(s: seq<char>, at: nat)
    requires Terminated(s, at)
    ensures Holds(s, at, CStr(s, at))
    decreases |s| - at
  {
    if s[at] != NUL {
      ReadsHold(s, at + 1);
      var t := CStr(s, at);
      forall k | 0 <= k < |t| ensures s[at + k] == t[k] {
        if k > 0 { assert s[at + 1 + (k - 1)] == CStr(s, at + 1)[k - 1]; }
      }
    }
  }

  /** `strcpy`: nothing outside the text and its terminator changes. */
  method StrCpy(buf: array<char>, at: nat, t: CString)
    requires at + |t| < buf.Length
    modifies buf
    ensures Holds(buf[..], at, t)
    ensures forall k :: 0 <= k < buf.Length && !(at <= k <= at + |t|) ==> buf[k] == old(buf[k])
  {
    var i := 0;
    while i < |t|
      invariant i <= |t|
      invariant forall k :: 0 <= k < i ==> buf[at + k] == t[k]
      invariant forall k :: 0 <= k < buf.Length && !(at <= k < at + i) ==> buf[k] == old(buf[k])
    {
      buf[at + i] := t[i];
      i := i + 1;
    }
    buf[at + |t|] := NUL;
  }

  /** Writes three texts one behind another, as many bytes as `Size` says. */
  method Pack(buf: array<char>, a: CString, b: CString, c: CString) returns (second: nat, third: nat)
    requires Size(a, b, c) <= buf.Length
    modifies buf
    ensures second == |a| + 1 && third == |a| + |b| + 2 && Size(a, b, c) == |a| + |b| + |c| + 3
    ensures Terminated(buf[..], 0) && Terminated(buf[..], second) && Terminated(buf[..], third)
    ensures CStr(buf[..], 0) == a && CStr(buf[..], second) == b && CStr(buf[..], third) == c
    ensures forall k :: Size(a, b, c) <= k < buf.Length ==> buf[k] == old(buf[k])
  {
    StrCpy(buf, 0, a);
    second := |a| + 1;
    ghost var s1 := buf[..];
    StrCpy(buf, second, b);
    third := second + |b| + 1;
    ghost var s2 := buf[..];
    StrCpy(buf, third, c);
    ghost var s3 := buf[..];
    Kept(s1, s2, 0, a);
    Kept(s2, s3, 0, a);
    Kept(s2, s3, second, b);
    HoldsReads(s3, 0, a);
    HoldsReads(s3, second, b);
    HoldsReads(s3, third, c);
  }

  function Size(a: CString, b: CString, c: CString): nat
  {
    |a| + |b| + |c| + 3
  }

  /** A text survives writes behind it. */
  lemma Kept(s: seq<char>, r: seq<char>, at: nat, t: CString)
    requires Holds(s, at, t) && |r| == |s|
    requires forall k :: 0 <= k <= at + |t| ==> r[k] == s[k]
    ensures Holds(r, at, t)
  {
  }
}
