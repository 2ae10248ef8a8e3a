/** Single bytes of physical memory, strings in it, and copying them. */
module MemoryBytes {
  import opened Machine
  import opened CString
  import opened Memory
  import opened Paging

  // ---------- Bytes of memory ----------

  /** The n bytes from address a on. */
  ghost function Bytes(m: Words, a: nat, n: nat): (t: seq<uint8>)
    requires a + n <= 4 * WORDS
    ensures |t| == n
  {
    seq<uint8>(n, k requires 0 <= k < n => ByteAt(m, a + k))
  }

  method LoadByte(mem: array<uint32>, a: uint32) returns (c: uint8)
    requires mem.Length == WORDS
    ensures c == ByteAt(mem[..], a)
  {
    c := ByteOf(mem[a / 4], a % 4);
  }

  /** A store of one byte changes that byte alone. */
  method StoreByte(mem: array<uint32>, a: uint32, c: uint8)
    requires mem.Length == WORDS
    modifies mem
    ensures forall b: uint32 :: ByteAt(mem[..], b) == if b == a then c else ByteAt(old(mem[..]), b)
    ensures forall f: Frame :: f != a / PAGE_SIZE ==> SameFrame(old(mem[..]), mem[..], f)
  {
    ghost var m: Words := mem[..];
    mem[a / 4] := WithByte(mem[a / 4], a % 4, c);
    StoredByte(m, a, c);
  }

  lemma StoredByte(m: Words, a: uint32, c: uint8)
    ensures var m': Words := m[a / 4 := WithByte(m[a / 4], a % 4, c)];
      && (forall b: uint32 :: ByteAt(m', b) == if b == a then c else ByteAt(m, b))
      && (forall f: Frame :: f != a / PAGE_SIZE ==> SameFrame(m, m', f))
  {
    var m': Words := m[a / 4 := WithByte(m[a / 4], a % 4, c)];
    ByteStored(m, a, c);
    forall f: Frame | f != a / PAGE_SIZE
      ensures SameFrame(m, m', f)
    {
      StoreInFrame(m, a, WithByte(m[a / 4], a % 4, c), f);
    }
  }

  /** A byte depends on its frame. */
  lemma SameByte(m: Words, m': Words, a: uint32)
    requires SameFrame(m, m', a / PAGE_SIZE)
    ensures ByteAt(m', a) == ByteAt(m, a)
  {
    assert ENTRIES * (a / PAGE_SIZE) <= a / 4 < ENTRIES * (a / PAGE_SIZE) + ENTRIES;
  }

  // ---------- Strings in memory ----------

  /** The string t lies at address a, with a NUL behind it. */
  ghost predicate HoldsString(m: Words, a: nat, t: seq<uint8>)
    requires a + |t| < 4 * WORDS
  {
    Bytes(m, a, |t| + 1) == t + [0] && 0 !in t
  }

  /** The page entry for the address i bytes behind virt. */
  ghost function EntryShown(pages: seq<uint32>, virt: uint32, i: nat): uint32
    requires |pages| == PAGES
  {
    pages[Wrap(virt + i) / PAGE_SIZE]
  }

  /** The frame that a directory shows there. */
  ghost function FrameShown(pages: seq<uint32>, virt: uint32, i: nat): Frame
    requires |pages| == PAGES
  {
    EntryShown(pages, virt, i) / PAGE_SIZE
  }

  /** The byte it shows there. */
  ghost function ByteShown(m: Words, pages: seq<uint32>, virt: uint32, i: nat): uint8
    requires |pages| == PAGES
  {
    ByteAt(m, Translate(pages, Wrap(virt + i)))
  }

  /** The string that a directory shows at virt, cut to n characters. */
  ghost function StringShown(m: Words, pages: seq<uint32>, virt: uint32, n: nat): (t: seq<uint8>)
    requires |pages| == PAGES
    ensures |t| <= n
  {
    CStr(seq<uint8>(n, i requires 0 <= i < n => ByteShown(m, pages, virt, i)), 0)
  }

  /** How many bytes are read to find it: the NUL too, unless n come first. */
  ghost function ReadLength(t: seq<uint8>, n: nat): nat {
    if |t| < n then |t| + 1 else n
  }

  lemma InPage(f: Frame, k: nat)
    requires k < PAGE_SIZE
    ensures (f * PAGE_SIZE + k) / PAGE_SIZE == f && (f * PAGE_SIZE + k) % PAGE_SIZE == k
  {
  }

  /** A byte shown depends on the frame shown. */
  lemma SameByteShown(m: Words, m': Words, pages: seq<uint32>, virt: uint32, i: nat)
    requires |pages| == PAGES && SameFrame(m, m', FrameShown(pages, virt, i))
    ensures ByteShown(m', pages, virt, i) == ByteShown(m, pages, virt, i)
  {
    InPage(FrameShown(pages, virt, i), Wrap(virt + i) % PAGE_SIZE);
    SameByte(m, m', Translate(pages, Wrap(virt + i)));
  }

  /** The string shown is what precedes the first NUL, or all n bytes. */
  lemma StringShownIs(m: Words, pages: seq<uint32>, virt: uint32, n: nat)
    requires |pages| == PAGES
    ensures var t := StringShown(m, pages, virt, n);
      && 0 !in t && (forall i :: 0 <= i < |t| ==> t[i] == ByteShown(m, pages, virt, i))
      && (|t| < n ==> ByteShown(m, pages, virt, |t|) == 0)
  {
    hide ByteShown;
    CStrEnds(seq<uint8>(n, i requires 0 <= i < n => ByteShown(m, pages, virt, i)), 0);
  }

  lemma {:induction false} CStrEnds(s: seq<uint8>, at: nat)
    requires at <= |s|
    ensures var t := CStr(s, at);
      && at + |t| <= |s| && (forall i :: 0 <= i < |t| ==> t[i] == s[at + i])
      && (at + |t| < |s| ==> s[at + |t|] == 0)
    decreases |s| - at
  {
    if at < |s| && s[at] != 0 {
      CStrEnds(s, at + 1);
    }
  }

  /** Two directories and memories that show the same bytes as far as the string goes show the same string. */
  lemma SameStringShown(m: Words, m': Words, pages: seq<uint32>, pages': seq<uint32>, virt: uint32, n: nat)
    requires |pages| == |pages'| == PAGES
    requires forall i :: 0 <= i < ReadLength(StringShown(m, pages, virt, n), n) ==>
               ByteShown(m', pages', virt, i) == ByteShown(m, pages, virt, i)
    ensures StringShown(m', pages', virt, n) == StringShown(m, pages, virt, n)
  {
    var t := StringShown(m, pages, virt, n);
    StringShownIs(m, pages, virt, n);
    hide ByteShown;
    CStrPrefix(seq<uint8>(n, i requires 0 <= i < n => ByteShown(m', pages', virt, i)), 0, |t|);
  }

  lemma {:induction false} CStrPrefix(s: seq<uint8>, at: nat, n: nat)
    requires at + n <= |s| && (at + n < |s| ==> s[at + n] == 0)
    requires forall i :: at <= i < at + n ==> s[i] != 0
    ensures CStr(s, at) == s[at..at + n]
    decreases n
  {
    if n > 0 {
      CStrPrefix(s, at + 1, n - 1);
    }
  }

  // ---------- strncpy ----------

  /** The frame of some of the n bytes from a on. */
  predicate InFrames(a: nat, n: nat, f: Frame) {
    a / PAGE_SIZE <= f <= (a + n - 1) / PAGE_SIZE
  }

  /** `strncpy` of a string that fits, from one place of physical memory to another below it. */
  method CopyString(mem: array<uint32>, dst: uint32, src: uint32, n: nat, ghost t: seq<uint8>)
    requires mem.Length == WORDS && 0 < n && dst + n <= src && src + n <= 4 * WORDS
    requires |t| < n && HoldsString(mem[..], src, t)
    modifies mem
    ensures HoldsString(mem[..], dst, t)
    ensures forall f: Frame :: !InFrames(dst, n, f) ==> SameFrame(old(mem[..]), mem[..], f)
  {
    ghost var m0: Words, bs := mem[..], Bytes(mem[..], src, |t| + 1);
    hide ByteAt, SameFrame, InFrames;
    var i := 0;
    while i < n - 1
      invariant 0 <= i <= |t|
      invariant Bytes(mem[..], dst, i) == t[..i]
      invariant Bytes(mem[..], src, |t| + 1) == bs
      invariant forall f: Frame :: !InFrames(dst, n, f) ==> SameFrame(m0, mem[..], f)
    {
      var c := LoadByte(mem, src + i);
      assert c == bs[i];
      if c == 0 {
        break;
      }
      PutByte(mem, dst, i, c, n, src, |t| + 1, m0);
      i := i + 1;
    }
    PutByte(mem, dst, i, 0, n, src, |t| + 1, m0);
  }

  /** One store of the copy. */
  method PutByte(mem: array<uint32>, dst: uint32, i: nat, c: uint8, n: nat, ghost src: uint32, ghost l: nat,
                 ghost m0: Words)
    requires mem.Length == WORDS && i < n && dst + n <= src && src + l <= 4 * WORDS
    requires forall f: Frame :: !InFrames(dst, n, f) ==> SameFrame(m0, mem[..], f)
    modifies mem
    ensures Bytes(mem[..], dst, i + 1) == Bytes(old(mem[..]), dst, i) + [c]
    ensures Bytes(mem[..], src, l) == Bytes(old(mem[..]), src, l)
    ensures forall f: Frame :: !InFrames(dst, n, f) ==> SameFrame(m0, mem[..], f)
  {
    ghost var m: Words := mem[..];
    StoreByte(mem, dst + i, c);
    ByteInFrames(dst, n, i);
    hide ByteAt, InFrames;
    forall f: Frame | !InFrames(dst, n, f)
      ensures SameFrame(m0, mem[..], f)
    {
      assert SameFrame(m0, m, f) && SameFrame(m, mem[..], f);
    }
  }

  lemma ByteInFrames(a: nat, n: nat, i: nat)
    requires i < n && a + n <= 4 * WORDS
    ensures InFrames(a, n, (a + i) / PAGE_SIZE)
  {
  }
}
