/** 8.3 file names and lookup in the root directory. */
module Fat16Dir {
  import opened Machine
  import opened CString
  import opened DiskIO

  const ENTRY_SIZE := 32
  const NUL: uint8 := 0x00
  const BLANK: uint8 := 0x20
  const DOT: uint8 := 0x2E
  const FREE_MARK: uint8 := 0xE5

  /** The name fields of a directory entry. */
  datatype DirItem = DirItem(name: seq<uint8>, ext: seq<uint8>) {
    ghost predicate Sized() {
      |name| == 8 && |ext| == 3
    }
  }

  // ---------- Names ----------

  predicate IsPad(c: uint8) {
    c == NUL || c == BLANK
  }

  /** A field up to its first NUL or blank. */
  function Trim(field: seq<uint8>): (t: seq<uint8>)
    ensures |t| <= |field| && t == field[..|t|]
    ensures forall i :: 0 <= i < |t| ==> !IsPad(t[i])
    ensures |t| < |field| ==> IsPad(field[|t|])
  {
    if field == [] || IsPad(field[0]) then [] else [field[0]] + Trim(field[1..])
  }

  /** The file name of an entry: name, and when there is an extension a dot and the extension. */
  function FileName(item: DirItem): (t: seq<uint8>)
    requires item.Sized()
    ensures |t| <= 12
  {
    Trim(item.name) + if IsPad(item.ext[0]) then [] else [DOT] + Trim(item.ext)
  }

  /** `fat16_fmt_str`: copies the trimmed field to out[at..] and terminates it; returns the new position. */
  method FmtStr(out: array<uint8>, at: nat, field: seq<uint8>) returns (end: nat)
    requires at + |field| < out.Length
    modifies out
    ensures end == at + |Trim(field)|
    ensures out[at..end] == Trim(field) && out[end] == NUL
    ensures forall k :: 0 <= k < out.Length && !(at <= k <= end) ==> out[k] == old(out[k])
  {
    var i := 0;
    while i < |field| && field[i] != NUL && field[i] != BLANK
      invariant 0 <= i <= |field|
      invariant forall k :: 0 <= k < i ==> out[at + k] == field[k] && !IsPad(field[k])
      invariant forall k :: 0 <= k < out.Length && !(at <= k < at + i) ==> out[k] == old(out[k])
    {
      out[at + i] := field[i];
      i := i + 1;
    }
    TrimIs(field, i);
    SameSlice(out[..], at, field, i);
    end := at + i;
    out[end] := NUL;
  }

  lemma SameSlice(s: seq<uint8>, at: nat, field: seq<uint8>, n: nat)
    requires at + n <= |s| && n <= |field| && forall k :: 0 <= k < n ==> s[at + k] == field[k]
    ensures s[at..at + n] == field[..n]
  {
    forall k | 0 <= k < n
      ensures s[at..at + n][k] == field[..n][k]
    {
      assert s[at + k] == field[k];
    }
  }

  lemma {:induction false} TrimIs(field: seq<uint8>, n: nat)
    requires n <= |field| && (forall k :: 0 <= k < n ==> !IsPad(field[k])) && (n < |field| ==> IsPad(field[n]))
    ensures Trim(field) == field[..n]
    decreases n
  {
    if n > 0 {
      TrimIs(field[1..], n - 1);
      assert field[1..][..n - 1] == field[1..n];
    }
  }

  method Clear(out: array<uint8>)
    modifies out
    ensures forall k :: 0 <= k < out.Length ==> out[k] == 0
  {
    for i := 0 to out.Length
      invariant forall k :: 0 <= k < i ==> out[k] == 0
    {
      out[i] := 0;
    }
  }

  lemma StringInBuffer(s: seq<uint8>, t: seq<uint8>)
    requires |t| < |s| && s[..|t|] == t && NUL !in t && forall k :: |t| <= k < |s| ==> s[k] == 0
    ensures CStr(s, 0) == t && ZeroPadded(s)
  {
    assert forall k :: 0 <= k < |t| ==> s[k] == s[..|t|][k];
    CStrAt(s, 0, |t|);
    hide CStr;
  }

  lemma FileNameShape(item: DirItem)
    requires item.Sized()
    ensures NUL !in FileName(item) && |Trim(item.name)| <= 8 && |Trim(item.ext)| <= 3
    ensures FileName(item) == if IsPad(item.ext[0]) then Trim(item.name) else Trim(item.name) + [DOT] + Trim(item.ext)
  {
    assert Trim(item.name) + [] == Trim(item.name);
    assert Trim(item.name) + ([DOT] + Trim(item.ext)) == Trim(item.name) + [DOT] + Trim(item.ext);
  }

  /** The dot and the extension behind a name. */
  method AppendExt(out: array<uint8>, at: nat, ext: seq<uint8>) returns (end: nat)
    requires at + 1 + |ext| < out.Length
    modifies out
    ensures end == at + 1 + |Trim(ext)|
    ensures out[..end] == old(out[..at]) + [DOT] + Trim(ext) && out[end] == NUL
    ensures forall k :: 0 <= k < out.Length && !(at <= k <= end) ==> out[k] == old(out[k])
  {
    hide Trim;
    out[at] := DOT;
    end := FmtStr(out, at + 1, ext);
    assert out[..at] == old(out[..at]);
    assert out[..end] == out[..at] + [out[at]] + out[at + 1..end];
  }

  /** `fat16_file_name_resolve` into a buffer it first clears. */
  method FileNameResolve(item: DirItem, out: array<uint8>)
    requires item.Sized() && out.Length == MAX_PATH
    modifies out
    ensures CStr(out[..], 0) == FileName(item) && ZeroPadded(out[..])
  {
    hide CStr, ZeroPadded, FileName, Trim;
    FileNameShape(item);
    Clear(out);
    var tmp := FmtStr(out, 0, item.name);
    if item.ext[0] != NUL && item.ext[0] != BLANK {
      tmp := AppendExt(out, tmp, item.ext);
    }
    assert out[..tmp] == FileName(item);
    StringInBuffer(out[..], FileName(item));
  }

  /** Blanks fill both fields. */
  ghost predicate Padded(item: DirItem) {
    && item.Sized()
    && (forall i :: |Trim(item.name)| <= i < 8 ==> item.name[i] == BLANK)
    && (forall i :: |Trim(item.ext)| <= i < 3 ==> item.ext[i] == BLANK)
  }

  /** And there is no dot in the name field; there may be one in the extension. */
  ghost predicate Canonical(item: DirItem) {
    Padded(item) && DOT !in Trim(item.name)
  }

  /** Where the name part of a file name ends. */
  function DotPosition(t: seq<uint8>): (n: nat)
    ensures n <= |t| && (n == |t| || t[n] == DOT)
    ensures forall i :: 0 <= i < n ==> t[i] != DOT
  {
    if t == [] || t[0] == DOT then 0 else 1 + DotPosition(t[1..])
  }

  lemma {:induction false} DotPositionIs(t: seq<uint8>, n: nat)
    requires n <= |t| && DOT !in t[..n] && (n < |t| ==> t[n] == DOT)
    ensures DotPosition(t) == n
    decreases n
  {
    if n > 0 {
      assert t[..n][0] == t[0] && t[..n][1..] == t[1..][..n - 1];
      DotPositionIs(t[1..], n - 1);
    }
  }

  /** Name resolution can be undone on canonical entries. */
  function ParseName(t: seq<uint8>): DirItem {
    var n := DotPosition(t);
    DirItem(Pad(t[..n], 8), Pad(if n < |t| then t[n + 1..] else [], 3))
  }

  function Pad(t: seq<uint8>, n: nat): seq<uint8> {
    t + seq<uint8>(if |t| < n then n - |t| else 0, _ => BLANK)
  }

  /** Padding with blanks restores a canonical field. */
  lemma PadRestores(field: seq<uint8>, n: nat)
    requires |field| == n && forall i :: |Trim(field)| <= i < n ==> field[i] == BLANK
    ensures Pad(Trim(field), n) == field
  {
  }

  lemma SplitAtDot(name: seq<uint8>, ext: seq<uint8>, t: seq<uint8>)
    requires DOT !in name && t == if ext == [] then name else name + [DOT] + ext
    ensures DotPosition(t) == |name| && t[..|name|] == name
    ensures ext == [] ==> |t| == |name|
    ensures ext != [] ==> |t| > |name| && t[|name| + 1..] == ext
  {
    assert t[..|name|] == name;
    DotPositionIs(t, |name|);
  }

  lemma ParsedFields(name: seq<uint8>, ext: seq<uint8>, t: seq<uint8>)
    requires DOT !in name && t == if ext == [] then name else name + [DOT] + ext
    ensures ParseName(t) == DirItem(Pad(name, 8), Pad(ext, 3))
  {
    hide Pad, DotPosition;
    SplitAtDot(name, ext, t);
  }

  lemma ResolveRoundTrip(item: DirItem)
    requires Canonical(item)
    ensures ParseName(FileName(item)) == item
  {
    var t, name, ext := FileName(item), Trim(item.name), Trim(item.ext);
    assert ext == [] <==> IsPad(item.ext[0]);
    FileNameShape(item);
    PadRestores(item.name, 8);
    PadRestores(item.ext, 3);
    hide Trim, FileName, Pad, DotPosition, ParseName;
    ParsedFields(name, ext, t);
    assert item == DirItem(item.name, item.ext);
  }

  predicate NoPads(t: seq<uint8>) {
    forall i :: 0 <= i < |t| ==> !IsPad(t[i])
  }

  /** A blank-filled field gives back the text it was filled up from. */
  lemma TrimOfPad(t: seq<uint8>, n: nat)
    requires NoPads(t) && |Pad(t, n)| == n
    ensures |t| <= n && Trim(Pad(t, n)) == t
    ensures forall i :: |t| <= i < n ==> Pad(t, n)[i] == BLANK
  {
    TrimIs(Pad(t, n), |t|);
    assert Pad(t, n)[..|t|] == t;
  }

  lemma FileNameHasNoPads(item: DirItem)
    requires item.Sized()
    ensures NoPads(FileName(item))
  {
  }

  /** The fields of an entry can be recovered from its file name exactly when blanks fill both of them and there is no
      dot in the name. */
  lemma ResolveRoundTripExactlyWhen(item: DirItem)
    requires item.Sized()
    ensures ParseName(FileName(item)) == item <==> Canonical(item)
  {
    if Canonical(item) {
      ResolveRoundTrip(item);
    }
    var t := FileName(item);
    if ParseName(t) == item {
      var n := DotPosition(t);
      FileNameHasNoPads(item);
      hide FileName, Trim, Pad, DotPosition;
      TrimOfPad(t[..n], 8);
      TrimOfPad(if n < |t| then t[n + 1..] else [], 3);
    }
  }

  /** So canonical entries have the same file name exactly when they are the same. */
  lemma ResolveInjective(a: DirItem, b: DirItem)
    requires Canonical(a) && Canonical(b)
    ensures FileName(a) == FileName(b) <==> a == b
  {
    ResolveRoundTrip(a);
    ResolveRoundTrip(b);
  }

  /** A file name can be cut here into a name and an extension that fit their fields: at its end, with no extension,
      or at a dot with one to three characters behind it. */
  predicate IsCut(t: seq<uint8>, k: nat) {
    && k <= 8 && k <= |t|
    && (k < |t| ==> t[k] == DOT && 1 <= |t| - k - 1 <= 3)
  }

  /** The entry a cut stands for. */
  function CutEntry(t: seq<uint8>, k: nat): DirItem
    requires IsCut(t, k)
  {
    DirItem(Pad(t[..k], 8), Pad(if k < |t| then t[k + 1..] else [], 3))
  }

  /** Every blank-filled entry is a cut of its file name, where its name ends. */
  lemma EntryIsCut(item: DirItem)
    requires Padded(item)
    ensures IsCut(FileName(item), |Trim(item.name)|)
    ensures CutEntry(FileName(item), |Trim(item.name)|) == item
  {
    var t, name, ext := FileName(item), Trim(item.name), Trim(item.ext);
    assert ext == [] <==> IsPad(item.ext[0]);
    FileNameShape(item);
    PadRestores(item.name, 8);
    PadRestores(item.ext, 3);
    hide Trim, FileName, Pad;
    assert t[..|name|] == name;
    assert |name| < |t| ==> t[|name| + 1..] == ext;
    assert item == DirItem(item.name, item.ext);
  }

  /** Every cut of a file name is a blank-filled entry with that file name. */
  lemma CutIsEntry(t: seq<uint8>, k: nat)
    requires NoPads(t) && IsCut(t, k)
    ensures Padded(CutEntry(t, k)) && FileName(CutEntry(t, k)) == t && |Trim(CutEntry(t, k).name)| == k
  {
    var name, ext := t[..k], if k < |t| then t[k + 1..] else [];
    var item := CutEntry(t, k);
    TrimOfPad(name, 8);
    TrimOfPad(ext, 3);
    assert t == if k < |t| then name + [DOT] + ext else name;
    assert IsPad(item.ext[0]) <==> ext == [] by {
      assert ext != [] ==> item.ext[0] == ext[0];
    }
    FileNameShape(item);
    hide Trim, FileName, Pad;
  }

  /** Another blank-filled entry has the same file name as this one exactly when that file name has a second cut. */
  lemma CollidesExactlyWhen(item: DirItem)
    requires Padded(item)
    ensures (exists other :: Padded(other) && other != item && FileName(other) == FileName(item)) <==>
            (exists k :: k != |Trim(item.name)| && IsCut(FileName(item), k))
  {
    var t := FileName(item);
    EntryIsCut(item);
    FileNameHasNoPads(item);
    hide FileName, Trim, Padded, IsCut, CutEntry;
    if other :| Padded(other) && other != item && FileName(other) == t {
      EntryIsCut(other);
      assert |Trim(other.name)| != |Trim(item.name)|;
    }
    if k :| k != |Trim(item.name)| && IsCut(t, k) {
      CutIsEntry(t, k);
      var other := CutEntry(t, k);
      assert Padded(other) && FileName(other) == t && other != item;
    }
  }

  /** With a dot in the name this fails: the name "A.B" and the name "A" with extension "B" coincide. */
  lemma ResolveNotInjectiveExample()
    ensures var b := BLANK;
      var x, y := DirItem([65, DOT, 66, b, b, b, b, b], [b, b, b]), DirItem([65, b, b, b, b, b, b, b], [66, b, b]);
      x != y && FileName(x) == FileName(y)
  {
    var b := BLANK;
    var x, y := DirItem([65, DOT, 66, b, b, b, b, b], [b, b, b]), DirItem([65, b, b, b, b, b, b, b], [66, b, b]);
    TrimIs(x.name, 3);
    TrimIs(y.name, 1);
    TrimIs(y.ext, 1);
    assert x.name[..3] == [65, DOT, 66] && y.name[..1] == [65] && y.ext[..1] == [66];
    assert x.name != y.name by { assert x.name[1] != y.name[1]; }
  }

  // ---------- Lookup ----------

  /** The entry's file name is this one, without case. */
  ghost predicate Matches(item: DirItem, name: seq<uint8>)
    requires item.Sized()
  {
    SameName(FileName(item), name)
  }

  /** The entry `HELLO   TXT` is found as `hello.txt`, and as `HELLO.TXT`, but not as `hello_txt`. */
  lemma MatchExample()
    ensures var b := BLANK;
      var item := DirItem([72, 69, 76, 76, 79, b, b, b], [84, 88, 84]);
      && Matches(item, [104, 101, 108, 108, 111, 46, 116, 120, 116]) && Matches(item, [72, 69, 76, 76, 79, 46, 84, 88, 84])
      && !Matches(item, [104, 101, 108, 108, 111, 95, 116, 120, 116])
  {
    hide FileName;
    ExampleName();
    var item := DirItem([72, 69, 76, 76, 79, BLANK, BLANK, BLANK], [84, 88, 84]);
    var other: seq<uint8> := [104, 101, 108, 108, 111, 95, 116, 120, 116];
    assert FileName(item)[5] == 46 && other[5] == 95 && !SameLetter(46, 95);
  }

  lemma ExampleName()
    ensures FileName(DirItem([72, 69, 76, 76, 79, BLANK, BLANK, BLANK], [84, 88, 84])) == [72, 69, 76, 76, 79, 46, 84, 88, 84]
  {
    var item := DirItem([72, 69, 76, 76, 79, BLANK, BLANK, BLANK], [84, 88, 84]);
    TrimIs(item.name, 5);
    TrimIs(item.ext, 3);
    assert item.name[..5] == [72, 69, 76, 76, 79] && item.ext[..3] == [84, 88, 84];
  }

  ghost predicate AllSized(items: seq<DirItem>) {
    forall i :: 0 <= i < |items| ==> items[i].Sized()
  }

  /** The last match among the first `total` entries, or -1. */
  ghost predicate IsLastMatch(items: seq<DirItem>, total: nat, name: seq<uint8>, found: int)
    requires total <= |items| && AllSized(items)
  {
    && -1 <= found < total
    && (found != -1 ==> Matches(items[found], name))
    && forall i :: found < i < total ==> !Matches(items[i], name)
  }

  /** `fat16_find_item_in_dir`: the index of the entry found, or -1. Every entry is compared and the last
      match wins. */
  method FindItemInDir(items: seq<DirItem>, total: nat, name: seq<uint8>) returns (found: int)
    requires total <= |items| && AllSized(items)
    requires |name| == MAX_PATH && ZeroPadded(name)
    ensures IsLastMatch(items, total, CStr(name, 0), found)
  {
    hide CStr, ZeroPadded, SameName, FileName;
    var tmpName := new uint8[MAX_PATH];
    found := -1;
    for i := 0 to total
      invariant -1 <= found < i
      invariant found != -1 ==> Matches(items[found], CStr(name, 0))
      invariant forall k :: found < k < i ==> !Matches(items[k], CStr(name, 0))
    {
      FileNameResolve(items[i], tmpName);
      var cmp := IStrnCmp(tmpName[..], name, MAX_PATH);
      PaddedCompare(tmpName[..], name);
      if cmp == 0 {
        found := i;
      }
    }
  }

  /** No two of the first `total` entries have the same name up to case. */
  ghost predicate DistinctNames(items: seq<DirItem>, total: nat)
    requires total <= |items| && AllSized(items)
  {
    forall j, k :: 0 <= j < k < total ==> !SameName(FileName(items[j]), FileName(items[k]))
  }

  /** With names distinct up to case, the search finds an entry exactly when that entry matches. */
  lemma {:induction false} FoundIsUnique(items: seq<DirItem>, total: nat, name: seq<uint8>, found: int, i: nat)
    requires total <= |items| && AllSized(items) && DistinctNames(items, total)
    requires IsLastMatch(items, total, name, found) && i < total
    ensures Matches(items[i], name) <==> found == i
  {
    hide FileName, SameName;
    if Matches(items[i], name) && found > i {
      SameNameJoins(FileName(items[i]), FileName(items[found]), name);
    }
  }

  // ---------- How many entries lookup considers ----------

  /** The first byte of the i-th entry of a directory on disk. */
  function FirstByte(d: Disk, start: nat, i: nat): uint8 {
    d.ByteAt(start + ENTRY_SIZE * i)
  }

  ghost predicate LiveEntry(d: Disk, start: nat, i: nat) {
    FirstByte(d, start, i) != NUL && FirstByte(d, start, i) != FREE_MARK
  }

  /** The entries among the first n that are neither deleted nor the end marker. */
  ghost function LiveCount(d: Disk, start: nat, n: nat): (c: nat)
    ensures c <= n
  {
    if n == 0 then 0 else LiveCount(d, start, n - 1) + if LiveEntry(d, start, n - 1) then 1 else 0
  }

  /** `fat16_get_dir_items`, for a directory whose end marker is entry `end`. */
  method GetDirItems(stream: DiskStream, dirSectorStart: nat, ghost end: nat) returns (count: nat)
    requires FirstByte(stream.disk, dirSectorStart * SECTOR_SIZE, end) == NUL
    requires forall i :: 0 <= i < end ==> FirstByte(stream.disk, dirSectorStart * SECTOR_SIZE, i) != NUL
    requires dirSectorStart * SECTOR_SIZE + ENTRY_SIZE * (end + 1) + SECTOR_SIZE < 0x8000_0000
    modifies stream
    ensures count == LiveCount(stream.disk, dirSectorStart * SECTOR_SIZE, end)
  {
    var dirStart := dirSectorStart * SECTOR_SIZE;
    var status := stream.Seek(dirStart);
    var item := new uint8[ENTRY_SIZE];
    count := 0;
    ghost var n := 0;
    while true
      invariant 0 <= n <= end && stream.pos == dirStart + ENTRY_SIZE * n
      invariant count == LiveCount(stream.disk, dirStart, n)
      decreases end - n
    {
      status := stream.Read(item, 0, ENTRY_SIZE);
      assert item[..] == stream.disk.Slice(dirStart + ENTRY_SIZE * n, ENTRY_SIZE);
      assert item[0] == item[..][0] == FirstByte(stream.disk, dirStart, n);
      if item[0] == NUL {
        return;
      }
      n := n + 1;
      if item[0] == FREE_MARK {
        continue;
      }
      count := count + 1;
    }
  }

  // ---------- Lookup in the root directory ----------

  /** The i-th entry of a directory on disk. */
  function ItemAt(d: Disk, start: nat, i: nat): DirItem {
    DirItem(d.Slice(start + ENTRY_SIZE * i, 8), d.Slice(start + ENTRY_SIZE * i + 8, 3))
  }

  function ItemsAt(d: Disk, start: nat, n: nat): (items: seq<DirItem>)
    ensures |items| == n
  {
    seq(n, i requires 0 <= i < n => ItemAt(d, start, i))
  }

  /** What an entry looks like on disk: the name, the extension, and 21 bytes of other fields. */
  function EntryBytes(item: DirItem, rest: seq<uint8>): seq<uint8> {
    item.name + item.ext + rest
  }

  function DirectoryBytes(items: seq<DirItem>, rests: seq<seq<uint8>>): (bytes: seq<uint8>)
    requires |rests| == |items|
  {
    if items == [] then []
    else DirectoryBytes(items[..|items| - 1], rests[..|items| - 1]) + EntryBytes(items[|items| - 1], rests[|items| - 1])
  }

  ghost predicate WellSized(items: seq<DirItem>, rests: seq<seq<uint8>>) {
    |rests| == |items| && AllSized(items) && forall i :: 0 <= i < |rests| ==> |rests[i]| == ENTRY_SIZE - 11
  }

  lemma {:induction false} EntryPlace(items: seq<DirItem>, rests: seq<seq<uint8>>, i: nat)
    requires WellSized(items, rests) && i < |items|
    ensures var bytes := DirectoryBytes(items, rests);
      && |bytes| == ENTRY_SIZE * |items|
      && bytes[ENTRY_SIZE * i..ENTRY_SIZE * i + ENTRY_SIZE] == EntryBytes(items[i], rests[i])
    decreases |items|
  {
    var n := |items| - 1;
    var before := DirectoryBytes(items[..n], rests[..n]);
    if n > 0 {
      EntryPlace(items[..n], rests[..n], if i < n then i else 0);
    }
    assert |before| == ENTRY_SIZE * n;
    if i < n {
      assert DirectoryBytes(items, rests)[ENTRY_SIZE * i..ENTRY_SIZE * i + ENTRY_SIZE]
          == before[ENTRY_SIZE * i..ENTRY_SIZE * i + ENTRY_SIZE];
    }
  }

  /** A directory written entry by entry is read back entry by entry. */
  lemma ItemsReadBack(d: Disk, start: nat, items: seq<DirItem>, rests: seq<seq<uint8>>, i: nat)
    requires WellSized(items, rests) && i < |items|
    requires d.Slice(start, ENTRY_SIZE * |items|) == DirectoryBytes(items, rests)
    ensures ItemAt(d, start, i) == items[i] && FirstByte(d, start, i) == items[i].name[0]
  {
    EntryPlace(items, rests, i);
    var n, at := |items|, ENTRY_SIZE * i;
    assert ENTRY_SIZE * n == at + ENTRY_SIZE + ENTRY_SIZE * (n - i - 1);
    d.SliceOfSlice(start, ENTRY_SIZE * n, at, ENTRY_SIZE);
    var bytes := d.Slice(start + at, ENTRY_SIZE);
    assert bytes == EntryBytes(items[i], rests[i]);
    d.SliceOfSlice(start + at, ENTRY_SIZE, 0, 8);
    d.SliceOfSlice(start + at, ENTRY_SIZE, 8, 3);
    assert bytes[0..8] == items[i].name && bytes[8..11] == items[i].ext;
    assert bytes[0] == items[i].name[0];
  }

  lemma ItemsAreSized(d: Disk, start: nat, n: nat)
    ensures AllSized(ItemsAt(d, start, n))
  {
  }

  /** The entries in a buffer read from disk. */
  function ItemIn(buf: seq<uint8>, i: nat): DirItem
    requires ENTRY_SIZE * i + ENTRY_SIZE <= |buf|
  {
    DirItem(buf[ENTRY_SIZE * i..ENTRY_SIZE * i + 8], buf[ENTRY_SIZE * i + 8..ENTRY_SIZE * i + 11])
  }

  lemma ItemInIsItemAt(d: Disk, start: nat, n: nat, buf: seq<uint8>, i: nat)
    requires i < n && buf == d.Slice(start, ENTRY_SIZE * n)
    ensures ENTRY_SIZE * i + ENTRY_SIZE <= |buf| && ItemIn(buf, i) == ItemAt(d, start, i)
  {
    assert ENTRY_SIZE * n == ENTRY_SIZE * i + ENTRY_SIZE + ENTRY_SIZE * (n - i - 1);
    d.SliceOfSlice(start, ENTRY_SIZE * n, ENTRY_SIZE * i, 8);
    d.SliceOfSlice(start, ENTRY_SIZE * n, ENTRY_SIZE * i + 8, 3);
  }

  /** `fat16_get_root`, given where the root directory starts and how many entries it has room for: those entries, how
      many entries lookup will consider, and the sector the data area is taken to start at. The end marker may lie behind
      the directory, in the data area: a full directory has none of its own. */
  method GetRoot(stream: DiskStream, rootPos: nat, rootEntries: nat, ghost end: nat)
    returns (items: seq<DirItem>, total: nat, sectorEnd: nat)
    requires FirstByte(stream.disk, rootPos * SECTOR_SIZE, end) == NUL
    requires forall i :: 0 <= i < end ==> FirstByte(stream.disk, rootPos * SECTOR_SIZE, i) != NUL
    requires rootPos * SECTOR_SIZE + ENTRY_SIZE * (rootEntries + 1) + SECTOR_SIZE < 0x8000_0000
    requires rootPos * SECTOR_SIZE + ENTRY_SIZE * (end + 1) + SECTOR_SIZE < 0x8000_0000
    modifies stream
    ensures items == ItemsAt(stream.disk, rootPos * SECTOR_SIZE, rootEntries)
    ensures total == LiveCount(stream.disk, rootPos * SECTOR_SIZE, end)
    ensures sectorEnd == rootPos + rootEntries * ENTRY_SIZE / SECTOR_SIZE
  {
    ghost var d, start := stream.disk, rootPos * SECTOR_SIZE;
    var rootSize := rootEntries * ENTRY_SIZE;
    total := GetDirItems(stream, rootPos, end);
    var dir := new uint8[rootSize];
    var status := stream.Seek(rootPos * SECTOR_SIZE);
    status := stream.Read(dir, 0, rootSize);
    var bytes := dir[..];
    assert bytes == d.Slice(start, ENTRY_SIZE * rootEntries);
    items := [];
    for i := 0 to rootEntries
      invariant items == ItemsAt(d, start, i)
    {
      ItemInIsItemAt(d, start, rootEntries, bytes, i);
      items := items + [ItemIn(bytes, i)];
    }
    sectorEnd := rootPos + rootSize / SECTOR_SIZE;
  }

  /** The entries up to the end marker that are not deleted have names distinct up to case. */
  ghost predicate DistinctLiveNames(d: Disk, start: nat, end: nat) {
    forall j, k :: 0 <= j < k < end && LiveEntry(d, start, j) && LiveEntry(d, start, k) ==>
      !SameName(FileName(ItemAt(d, start, j)), FileName(ItemAt(d, start, k)))
  }

  /** Looking a name up in the root directory. `beyond` is what the memory behind the buffer looks like, for lookup goes
      on into it when more entries are counted than the directory has (`OverrunExactlyWhen`). A live entry with that
      name is found exactly when its index is below the number of entries counted and nothing read behind the buffer
      has the name too. */
  method LookupInRoot(stream: DiskStream, rootPos: nat, rootEntries: nat, name: seq<uint8>, beyond: seq<DirItem>,
                      ghost end: nat)
    returns (found: int)
    requires FirstByte(stream.disk, rootPos * SECTOR_SIZE, end) == NUL
    requires forall i :: 0 <= i < end ==> FirstByte(stream.disk, rootPos * SECTOR_SIZE, i) != NUL
    requires rootPos * SECTOR_SIZE + ENTRY_SIZE * (rootEntries + 1) + SECTOR_SIZE < 0x8000_0000
    requires rootPos * SECTOR_SIZE + ENTRY_SIZE * (end + 1) + SECTOR_SIZE < 0x8000_0000
    requires LiveCount(stream.disk, rootPos * SECTOR_SIZE, end) <= rootEntries + |beyond| && AllSized(beyond)
    requires |name| == MAX_PATH && ZeroPadded(name)
    modifies stream
    ensures var d, start, total := stream.disk, rootPos * SECTOR_SIZE, LiveCount(stream.disk, rootPos * SECTOR_SIZE, end);
      && (DistinctLiveNames(d, start, InDirectory(end, rootEntries)) ==>
            forall i :: 0 <= i < end && i < rootEntries && HasName(d, start, i, CStr(name, 0)) ==>
              (found == i <==> i < total && NoneBehind(beyond, total - rootEntries, CStr(name, 0))))
      && (found == -1 || 0 <= found < total)
      && (0 <= found < rootEntries ==> found < end && Matches(ItemAt(d, start, found), CStr(name, 0)))
      && (found >= rootEntries ==> Matches(beyond[found - rootEntries], CStr(name, 0)))
  {
    hide CStr, ZeroPadded, HasName, LiveCount, ItemAt, DistinctLiveNames, Matches, IsLastMatch, NoneBehind;
    ghost var d, start := stream.disk, rootPos * SECTOR_SIZE;
    var items, total, _ := GetRoot(stream, rootPos, rootEntries, end);
    ItemsAreSized(d, start, rootEntries);
    found := FindItemInDir(items + beyond, total, name);
    FoundMatches(d, start, rootEntries, end, beyond, CStr(name, 0), found);
    if DistinctLiveNames(d, start, InDirectory(end, rootEntries)) {
      forall i | 0 <= i < end && i < rootEntries && HasName(d, start, i, CStr(name, 0))
        ensures found == i <==> i < total && NoneBehind(beyond, total - rootEntries, CStr(name, 0))
      {
        LiveNameIsFoundExactlyWhen(d, start, rootEntries, end, beyond, CStr(name, 0), found, i);
      }
    }
  }

  /** How many of the entries before the end marker lie in the directory itself. */
  function InDirectory(end: nat, rootEntries: nat): nat {
    if end <= rootEntries then end else rootEntries
  }

  /** None of the first n entries read from the memory behind the buffer has this name. */
  ghost predicate NoneBehind(beyond: seq<DirItem>, n: int, name: seq<uint8>)
    requires n <= |beyond| && AllSized(beyond)
  {
    forall k :: 0 <= k < n ==> !Matches(beyond[k], name)
  }

  /** A live entry with this name. */
  ghost predicate HasName(d: Disk, start: nat, i: nat, name: seq<uint8>) {
    LiveEntry(d, start, i) && Matches(ItemAt(d, start, i), name)
  }

  /** What lookup compares: the directory's entries, then the memory behind them. */
  ghost function Compared(d: Disk, start: nat, n: nat, beyond: seq<DirItem>): (items: seq<DirItem>)
    requires AllSized(beyond)
    ensures |items| == n + |beyond| && AllSized(items)
    ensures forall k :: 0 <= k < |items| ==> items[k] == if k < n then ItemAt(d, start, k) else beyond[k - n]
  {
    ItemsAreSized(d, start, n);
    ItemsAt(d, start, n) + beyond
  }

  lemma FoundMatches(d: Disk, start: nat, n: nat, end: nat, beyond: seq<DirItem>, name: seq<uint8>, found: int)
    requires AllSized(beyond) && LiveCount(d, start, end) <= n + |beyond|
    requires IsLastMatch(Compared(d, start, n, beyond), LiveCount(d, start, end), name, found)
    ensures found == -1 || 0 <= found < LiveCount(d, start, end) <= end
    ensures 0 <= found < n ==> Matches(ItemAt(d, start, found), name)
    ensures found >= n ==> Matches(beyond[found - n], name)
  {
    hide Matches, LiveCount, ItemAt, Compared, AllSized;
  }

  lemma LiveNameIsFoundExactlyWhen(d: Disk, start: nat, n: nat, end: nat, beyond: seq<DirItem>, name: seq<uint8>,
                                   found: int, i: nat)
    requires AllSized(beyond) && LiveCount(d, start, end) <= n + |beyond|
    requires DistinctLiveNames(d, start, InDirectory(end, n)) && i < InDirectory(end, n) && HasName(d, start, i, name)
    requires forall k :: 0 <= k < end ==> FirstByte(d, start, k) != NUL
    requires IsLastMatch(Compared(d, start, n, beyond), LiveCount(d, start, end), name, found)
    ensures found == i <==> i < LiveCount(d, start, end) && NoneBehind(beyond, LiveCount(d, start, end) - n, name)
  {
    var c, items := LiveCount(d, start, end), Compared(d, start, n, beyond);
    OthersDiffer(d, start, n, end, name, i);
    hide Matches, LiveCount, ItemAt, DistinctLiveNames, FirstByte, Compared, LiveEntry, AllSized;
    if found == i {
      forall k | 0 <= k < c - n
        ensures !Matches(beyond[k], name)
      {
        assert items[n + k] == beyond[k];
      }
    }
    if i < c && NoneBehind(beyond, c - n, name) {
      assert items[i] == ItemAt(d, start, i);
    }
  }

  /** No other entry that is compared has the name of a live one. */
  lemma OthersDiffer(d: Disk, start: nat, n: nat, end: nat, name: seq<uint8>, i: nat)
    requires DistinctLiveNames(d, start, InDirectory(end, n)) && i < InDirectory(end, n) && HasName(d, start, i, name)
    requires forall k :: 0 <= k < end ==> FirstByte(d, start, k) != NUL
    ensures forall k :: 0 <= k < InDirectory(end, n) && k != i ==> !Matches(ItemAt(d, start, k), name)
  {
    hide Matches, DistinctLiveNames, FirstByte;
    forall k | 0 <= k < InDirectory(end, n) && k != i
      ensures !Matches(ItemAt(d, start, k), name)
    {
      if LiveEntry(d, start, k) {
        OtherLiveDiffers(d, start, InDirectory(end, n), name, i, k);
      } else {
        DeletedDiffers(d, start, name, i, k);
      }
    }
  }

  // ---------- Counting past the end ----------

  ghost function LiveSet(d: Disk, start: nat, from: nat, to: nat): (s: set<nat>) {
    set i: nat | from <= i < to && LiveEntry(d, start, i)
  }

  ghost function DeletedSet(d: Disk, start: nat, n: nat): (s: set<nat>) {
    set i: nat | i < n && !LiveEntry(d, start, i)
  }

  lemma {:induction false} LiveCountIs(d: Disk, start: nat, n: nat)
    ensures LiveCount(d, start, n) == |LiveSet(d, start, 0, n)|
  {
    hide LiveEntry;
    if n > 0 {
      LiveCountIs(d, start, n - 1);
      var before := LiveSet(d, start, 0, n - 1);
      assert LiveSet(d, start, 0, n) == before + if LiveEntry(d, start, n - 1) then {n - 1} else {};
    }
  }

  ghost function Below(n: nat): (s: set<nat>)
    ensures |s| == n && forall i: nat :: i in s <==> i < n
  {
    if n == 0 then {} else Below(n - 1) + {n - 1}
  }

  lemma LiveOrDeleted(d: Disk, start: nat, n: nat)
    ensures |LiveSet(d, start, 0, n)| + |DeletedSet(d, start, n)| == n
  {
    hide LiveEntry;
    assert Below(n) == LiveSet(d, start, 0, n) + DeletedSet(d, start, n);
  }

  /** Lookup reads behind the buffer exactly when the end marker lies behind the directory and more of the entries
      between the two look live than entries of the directory are deleted. */
  lemma OverrunExactlyWhen(d: Disk, start: nat, rootEntries: nat, end: nat)
    ensures LiveCount(d, start, end) > rootEntries
       <==> end > rootEntries && |LiveSet(d, start, rootEntries, end)| > |DeletedSet(d, start, rootEntries)|
  {
    hide LiveEntry;
    LiveCountIs(d, start, end);
    if end > rootEntries {
      LiveOrDeleted(d, start, rootEntries);
      assert LiveSet(d, start, 0, end) == LiveSet(d, start, 0, rootEntries) + LiveSet(d, start, rootEntries, end);
    }
  }

  lemma OtherLiveDiffers(d: Disk, start: nat, end: nat, name: seq<uint8>, i: nat, k: nat)
    requires DistinctLiveNames(d, start, end) && i < end && k < end && k != i
    requires HasName(d, start, i, name) && LiveEntry(d, start, k)
    ensures !Matches(ItemAt(d, start, k), name)
  {
    hide FileName, SameName, LiveEntry;
    var j, l := if i < k then i else k, if i < k then k else i;
    assert LiveEntry(d, start, j) && LiveEntry(d, start, l);
    SameNameJoins(FileName(ItemAt(d, start, j)), FileName(ItemAt(d, start, l)), name);
  }

  /** A deleted entry's name begins with the byte that marks it deleted, a live one's never does. */
  lemma DeletedDiffers(d: Disk, start: nat, name: seq<uint8>, i: nat, k: nat)
    requires HasName(d, start, i, name) && FirstByte(d, start, k) == FREE_MARK
    ensures !Matches(ItemAt(d, start, k), name)
  {
    FirstOfName(ItemAt(d, start, k));
    FirstOfName(ItemAt(d, start, i));
    var del, live := FileName(ItemAt(d, start, k)), FileName(ItemAt(d, start, i));
    assert ItemAt(d, start, k).name[0] == FREE_MARK && ItemAt(d, start, i).name[0] != FREE_MARK;
    hide FileName, ItemAt;
    assert |del| > 0 && del[0] == FREE_MARK;
    assert |live| > 0 ==> live[0] != FREE_MARK;
  }

  lemma FirstOfName(item: DirItem)
    requires item.Sized()
    ensures IsPad(item.name[0]) ==> FileName(item) == [] || FileName(item)[0] == DOT
    ensures !IsPad(item.name[0]) ==> |FileName(item)| > 0 && FileName(item)[0] == item.name[0]
  {
    if IsPad(item.name[0]) {
      assert Trim(item.name) == [];
    } else {
      assert Trim(item.name)[0] == item.name[0];
    }
  }

  lemma {:induction false} AllLiveCount(d: Disk, start: nat, n: nat, m: nat)
    requires m <= n
    requires forall i :: 0 <= i < m ==> LiveEntry(d, start, i)
    requires forall i :: m <= i < n ==> !LiveEntry(d, start, i)
    ensures LiveCount(d, start, n) == m
    decreases n
  {
    if m < n {
      AllLiveCount(d, start, n - 1, m);
    } else if n > 0 {
      AllLiveCount(d, start, n - 1, n - 1);
    }
  }

  /** Lookup compares the first LiveCount entries. Those include every live entry exactly when no deleted
      entry comes before a live one. */
  lemma {:induction false} LookupSeesEveryEntryExactlyWhen(d: Disk, start: nat, end: nat)
    ensures (forall i :: 0 <= i < end && LiveEntry(d, start, i) ==> i < LiveCount(d, start, end)) <==>
            (forall i, j :: 0 <= i < j < end && LiveEntry(d, start, j) ==> LiveEntry(d, start, i))
  {
    var c := LiveCount(d, start, end);
    if forall i :: 0 <= i < end && LiveEntry(d, start, i) ==> i < c {
      FullBelow(d, start, end, c);
    }
    if forall i, j :: 0 <= i < j < end && LiveEntry(d, start, j) ==> LiveEntry(d, start, i) {
      var m := LivePrefix(d, start, end);
      AllLiveCount(d, start, end, m);
    }
  }

  /** If all live entries lie below c and there are c of them, every entry below c is live. */
  lemma {:induction false} FullBelow(d: Disk, start: nat, end: nat, c: nat)
    requires c <= end && forall i :: 0 <= i < end && LiveEntry(d, start, i) ==> i < c
    requires LiveCount(d, start, end) == c
    ensures forall i :: 0 <= i < c ==> LiveEntry(d, start, i)
    decreases end
  {
    if c < end {
      FullBelow(d, start, end - 1, c);
    } else if c > 0 {
      FullBelow(d, start, end - 1, c - 1);
    }
  }

  lemma {:induction false} LivePrefix(d: Disk, start: nat, end: nat) returns (m: nat)
    requires forall i, j :: 0 <= i < j < end && LiveEntry(d, start, j) ==> LiveEntry(d, start, i)
    ensures m <= end && (forall i :: 0 <= i < m ==> LiveEntry(d, start, i))
    ensures forall i :: m <= i < end ==> !LiveEntry(d, start, i)
    decreases end
  {
    if end == 0 {
      m := 0;
    } else if LiveEntry(d, start, end - 1) {
      m := end;
    } else {
      m := LivePrefix(d, start, end - 1);
    }
  }
}
