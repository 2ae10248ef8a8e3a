/** C strings in byte buffers, and the string routines the kernel and its programs rely on. */
module CString {
  import opened Machine

  // ---------- Strings in buffers ----------

  /** The string starting at position `at`: up to the next NUL, or to the end of the buffer. */
  function CStr(s: seq<uint8>, at: nat): (t: seq<uint8>)
    ensures at + |t| <= |s| || t == []
    ensures 0 !in t
    decreases |s| - at
  {
    if at >= |s| || s[at] == 0 then [] else [s[at]] + CStr(s, at + 1)
  }

  /** A NUL follows at or after position `at`. */
  ghost predicate Terminated(s: seq<uint8>, at: nat) {
    at + |CStr(s, at)| < |s|
  }

  lemma {:induction false} CStrIs(s: seq<uint8>, at: nat)
    requires Terminated(s, at)
    ensures CStr(s, at) == s[at..at + |CStr(s, at)|] && s[at + |CStr(s, at)|] == 0
    ensures forall i :: at <= i < at + |CStr(s, at)| ==> s[i] != 0
    decreases |s| - at
  {
    if s[at] != 0 {
      CStrIs(s, at + 1);
    }
  }

  /** The string is what precedes the first NUL. */
  lemma {:induction false} CStrAt(s: seq<uint8>, at: nat, n: nat)
    requires at + n < |s| && s[at + n] == 0 && forall i :: at <= i < at + n ==> s[i] != 0
    ensures CStr(s, at) == s[at..at + n] && Terminated(s, at)
    decreases n
  {
    if n > 0 {
      CStrAt(s, at + 1, n - 1);
    }
  }

  lemma {:induction false} CStrSuffix(s: seq<uint8>, at: nat, k: nat)
    requires k <= |CStr(s, at)|
    ensures CStr(s, at + k) == CStr(s, at)[k..]
    decreases k
  {
    if k > 0 {
      CStrSuffix(s, at + 1, k - 1);
    }
  }

  /** The longest prefix of at most n characters. */
  function Truncate(t: seq<uint8>, n: nat): (r: seq<uint8>)
    ensures r <= t && |r| <= n && (|r| == |t| || |r| == n)
  {
    if |t| <= n then t else t[..n]
  }

  /** `strncpy` into a buffer of n bytes: at most n - 1 characters, always NUL-terminated, even if n is not positive. */
  method Strncpy(dst: array<uint8>, src: seq<uint8>, at: nat, n: int)
    requires 0 < dst.Length && n <= dst.Length && Terminated(src, at)
    modifies dst
    ensures CStr(dst[..], 0) == Truncate(CStr(src, at), if n > 0 then n - 1 else 0) && Terminated(dst[..], 0)
  {
    ghost var t := CStr(src, at);
    CStrIs(src, at);
    var i := 0;
    while i < n - 1
      invariant 0 <= i <= |t| && (i == 0 || i <= n - 1)
      invariant forall k :: 0 <= k < i ==> dst[k] == t[k] && t[k] != 0
    {
      if src[at + i] == 0 {
        break;
      }
      assert i < |t| && src[at + i] == t[i];
      dst[i] := src[at + i];
      i := i + 1;
    }
    assert i == |t| || i == if n > 0 then n - 1 else 0;
    dst[i] := 0;
    CStrAt(dst[..], 0, i);
  }

  // ---------- Comparing without case ----------

  /** Two characters are the same without case: equal, or a letter in 65..90 and the one 32 places on. */
  predicate SameLetter(c: uint8, d: uint8) {
    c == d || (65 <= c <= 90 && d == c + 32) || (65 <= d <= 90 && c == d + 32)
  }

  /** `tolower`: the same letter, and none of the upper-case ones. */
  function ToLower(c: uint8): (r: uint8)
    ensures SameLetter(c, r) && !(65 <= r <= 90)
  {
    if 'A' as int - 1 < c < 'Z' as int + 1 then c + ('a' as int - 'A' as int) else c
  }

  /** Lower-casing makes two characters equal exactly when they are the same without case. */
  lemma ToLowerEqualExactlyWhen(c: uint8, d: uint8)
    ensures ToLower(c) == ToLower(d) <==> SameLetter(c, d)
  {
  }

  /** A char read as an int: 8 bits, signed. */
  function SignedChar(c: uint8): (r: int)
    ensures -0x80 <= r < 0x80 && r % 0x100 == c
  {
    if c < 0x80 then c else c - 0x100
  }

  /** `istrncmp`: the first difference in the lower-cased characters, or 0. */
  method IStrnCmp(s1: seq<uint8>, s2: seq<uint8>, n: nat) returns (r: int)
    requires n <= |s1| && n <= |s2|
    ensures r == 0 <==> forall k :: 0 <= k < n ==> SameLetter(s1[k], s2[k])
    ensures r != 0 ==> exists k :: 0 <= k < n && r == SignedChar(ToLower(s1[k])) - SignedChar(ToLower(s2[k]))
                                  && !SameLetter(s1[k], s2[k]) && forall j :: 0 <= j < k ==> SameLetter(s1[j], s2[j])
  {
    hide ToLower, SignedChar, SameLetter;
    var a, b, i := 0, 0, 0;
    while i < n && a == b
      invariant 0 <= i <= n
      invariant a == b ==> forall k :: 0 <= k < i ==> SameLetter(s1[k], s2[k])
      invariant a != b ==> i > 0 && a == SignedChar(ToLower(s1[i - 1])) && b == SignedChar(ToLower(s2[i - 1]))
                           && !SameLetter(s1[i - 1], s2[i - 1]) && forall k :: 0 <= k < i - 1 ==> SameLetter(s1[k], s2[k])
    {
      a := SignedChar(ToLower(s1[i]));
      b := SignedChar(ToLower(s2[i]));
      ToLowerEqualExactlyWhen(s1[i], s2[i]);
      i := i + 1;
    }
    r := a - b;
  }

  /** A string followed by zeroes up to the end of the buffer. */
  ghost predicate ZeroPadded(s: seq<uint8>) {
    forall i :: |CStr(s, 0)| <= i < |s| ==> s[i] == 0
  }

  /** Two strings are the same without case, character by character. */
  predicate SameName(a: seq<uint8>, b: seq<uint8>) {
    |a| == |b| && forall k :: 0 <= k < |a| ==> SameLetter(a[k], b[k])
  }

  /** Being the same without case is an equivalence. */
  lemma SameNameJoins(a: seq<uint8>, b: seq<uint8>, c: seq<uint8>)
    ensures SameName(a, a) && (SameName(a, b) ==> SameName(b, a))
    ensures SameName(a, c) && SameName(b, c) ==> SameName(a, b)
  {
    if SameName(a, c) && SameName(b, c) {
      forall k | 0 <= k < |a|
        ensures SameLetter(a[k], b[k])
      {
        assert SameLetter(a[k], c[k]) && SameLetter(b[k], c[k]);
      }
    }
  }

  /** Comparing two zero-padded buffers over their whole length compares the strings without case. */
  lemma {:induction false} PaddedCompare(s1: seq<uint8>, s2: seq<uint8>)
    requires |s1| == |s2| && ZeroPadded(s1) && ZeroPadded(s2)
    ensures (forall k :: 0 <= k < |s1| ==> SameLetter(s1[k], s2[k])) <==> SameName(CStr(s1, 0), CStr(s2, 0))
  {
    var t1, t2 := CStr(s1, 0), CStr(s2, 0);
    PrefixOfPadded(s1);
    PrefixOfPadded(s2);
    hide CStr;
    if forall k :: 0 <= k < |s1| ==> SameLetter(s1[k], s2[k]) {
      NoLonger(s1, s2);
      NoLonger(s2, s1);
      forall k | 0 <= k < |t1| && k < |t2| ensures SameLetter(t1[k], t2[k]) {
        assert s1[k] == t1[k] && s2[k] == t2[k];
      }
    }
    if SameName(t1, t2) {
      forall k | 0 <= k < |s1| ensures SameLetter(s1[k], s2[k]) {
        if k < |t1| {
          assert SameLetter(t1[k], t2[k]) && s1[k] == t1[k] && s2[k] == t2[k];
        }
      }
    }
  }

  lemma NoLonger(s1: seq<uint8>, s2: seq<uint8>)
    requires |s1| == |s2| && ZeroPadded(s2) && forall k :: 0 <= k < |s1| ==> SameLetter(s1[k], s2[k])
    ensures |CStr(s1, 0)| <= |CStr(s2, 0)|
  {
    hide CStr, SameLetter, ZeroPadded;
    var n := |CStr(s2, 0)|;
    PrefixOfPadded(s1);
    if n < |s1| {
      PaddedAt(s2, n);
      assert SameLetter(s1[n], s2[n]);
      OnlyNulIsNul(s1[n]);
      StopsAtZero(s1, 0, n);
    }
  }

  lemma PaddedAt(s: seq<uint8>, k: nat)
    requires ZeroPadded(s) && |CStr(s, 0)| <= k < |s|
    ensures s[k] == 0
  {
  }

  lemma OnlyNulIsNul(c: uint8)
    ensures SameLetter(c, 0) ==> c == 0
  {
  }

  lemma {:induction false} StopsAtZero(s: seq<uint8>, at: nat, k: nat)
    requires at + k < |s| && s[at + k] == 0
    ensures |CStr(s, at)| <= k
    decreases k
  {
    if k > 0 && s[at] != 0 {
      StopsAtZero(s, at + 1, k - 1);
    }
  }

  lemma {:induction false} PrefixOfPadded(s: seq<uint8>)
    ensures |CStr(s, 0)| <= |s| && CStr(s, 0) == s[..|CStr(s, 0)|]
  {
    PrefixOfBuffer(s, 0);
  }

  lemma {:induction false} PrefixOfBuffer(s: seq<uint8>, at: nat)
    requires at <= |s|
    ensures at + |CStr(s, at)| <= |s| && CStr(s, at) == s[at..at + |CStr(s, at)|]
    decreases |s| - at
  {
    if at < |s| && s[at] != 0 {
      PrefixOfBuffer(s, at + 1);
    }
  }
}
