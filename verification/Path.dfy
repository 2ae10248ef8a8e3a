/** File paths of the form "0:/dir/file". */
module Path {
  import opened Machine
  import opened CString

  const SLASH: uint8 := 0x2F
  const COLON: uint8 := 0x3A

  datatype ParsedPath = ParsedPath(drive: nat, parts: seq<seq<uint8>>)

  predicate IsDigit(c: uint8) {
    48 <= c <= 57
  }

  // ---------- What a path means ----------

  /** The number of characters before the first slash. */
  function PartLength(t: seq<uint8>): (n: nat)
    ensures n <= |t| && SLASH !in t[..n] && (n < |t| ==> t[n] == SLASH)
  {
    if t == [] || t[0] == SLASH then 0 else 1 + PartLength(t[1..])
  }

  function AfterPart(t: seq<uint8>): (r: seq<uint8>)
    ensures PartLength(t) > 0 ==> |r| < |t|
  {
    if PartLength(t) < |t| then t[PartLength(t) + 1..] else []
  }

  /** The parts of the text after the drive: up to the first empty one, which ends the path. */
  function Parts(t: seq<uint8>): seq<seq<uint8>>
    decreases |t|
  {
    if PartLength(t) == 0 then [] else [t[..PartLength(t)]] + Parts(AfterPart(t))
  }

  predicate ValidPrefix(t: seq<uint8>) {
    |t| >= 3 && IsDigit(t[0]) && t[1] == COLON && t[2] == SLASH
  }

  /** What parsing the string t yields. */
  function Parse(t: seq<uint8>): Option<ParsedPath> {
    if |t| <= MAX_PATH && ValidPrefix(t) then Some(ParsedPath(t[0] - 48, Parts(t[3..]))) else None
  }

  // ---------- Printing a path ----------

  function Joined(parts: seq<seq<uint8>>): seq<uint8> {
    if parts == [] then []
    else if |parts| == 1 then parts[0]
    else parts[0] + [SLASH] + Joined(parts[1..])
  }

  function Print(drive: nat, parts: seq<seq<uint8>>): seq<uint8>
    requires drive < 10
  {
    [48 + drive, COLON, SLASH] + Joined(parts)
  }

  lemma {:induction false} PartLengthIs(t: seq<uint8>, n: nat)
    requires n <= |t| && SLASH !in t[..n] && (n < |t| ==> t[n] == SLASH)
    ensures PartLength(t) == n
    decreases n
  {
    if n > 0 {
      assert t[..n][0] == t[0] && t[..n][1..] == t[1..][..n - 1];
      PartLengthIs(t[1..], n - 1);
    }
  }

  lemma FirstPartOfJoined(parts: seq<seq<uint8>>)
    requires parts != [] && SLASH !in parts[0]
    ensures PartLength(Joined(parts)) == |parts[0]|
    ensures Joined(parts)[..|parts[0]|] == parts[0] && AfterPart(Joined(parts)) == Joined(parts[1..])
  {
    var t, n := Joined(parts), |parts[0]|;
    assert t[..n] == parts[0];
    PartLengthIs(t, n);
    if |parts| > 1 {
      assert t[n + 1..] == Joined(parts[1..]);
    } else {
      assert parts[1..] == [];
    }
  }

  /** The parts come back exactly when none of them is empty; otherwise parsing stops before the first
      empty one. */
  lemma {:induction false} PartsUndoJoinExactlyWhen(parts: seq<seq<uint8>>)
    requires forall k :: 0 <= k < |parts| ==> SLASH !in parts[k]
    ensures Parts(Joined(parts)) == parts <==> forall k :: 0 <= k < |parts| ==> parts[k] != []
  {
    if parts != [] {
      FirstPartOfJoined(parts);
      assert Parts(Joined(parts)) == if parts[0] == [] then [] else [parts[0]] + Parts(Joined(parts[1..]));
      hide Joined, PartLength, AfterPart, Parts;
      PartsUndoJoinExactlyWhen(parts[1..]);
      if parts[0] != [] {
        SameTail(parts, Parts(Joined(parts[1..])));
        AllButFirst(parts);
      }
    }
  }

  lemma SameTail(parts: seq<seq<uint8>>, rest: seq<seq<uint8>>)
    requires parts != []
    ensures [parts[0]] + rest == parts <==> rest == parts[1..]
  {
    assert ([parts[0]] + rest)[1..] == rest;
    assert parts == [parts[0]] + parts[1..];
  }

  lemma AllButFirst(parts: seq<seq<uint8>>)
    requires parts != [] && parts[0] != []
    ensures (forall k :: 0 <= k < |parts| ==> parts[k] != []) <==> (forall k :: 0 <= k < |parts[1..]| ==> parts[1..][k] != [])
  {
    if forall k :: 0 <= k < |parts[1..]| ==> parts[1..][k] != [] {
      forall k | 0 <= k < |parts| ensures parts[k] != [] {
        if k > 0 { assert parts[1..][k - 1] != []; }
      }
    }
  }

  /** Parsing undoes printing exactly when no part is empty and the text fits. */
  lemma ParseUndoesPrintExactlyWhen(drive: nat, parts: seq<seq<uint8>>)
    requires drive < 10 && forall k :: 0 <= k < |parts| ==> SLASH !in parts[k] && 0 !in parts[k]
    ensures Parse(Print(drive, parts)) == Some(ParsedPath(drive, parts)) <==>
            (forall k :: 0 <= k < |parts| ==> parts[k] != []) && |Print(drive, parts)| <= MAX_PATH
  {
    PartsUndoJoinExactlyWhen(parts);
    assert Print(drive, parts)[3..] == Joined(parts);
  }

  /** A text is a path exactly when it has at most 108 characters and begins as a printed path does: with a digit, a colon
      and a slash. The digit is the drive, and the parts are those of the rest. */
  lemma ParsesExactlyWhen(t: seq<uint8>)
    ensures Parse(t).Some? <==> |t| <= 108 && exists drive: nat :: drive < 10 && Print(drive, []) <= t
    ensures forall drive: nat :: drive < 10 && Print(drive, []) <= t && Parse(t).Some? ==>
              Parse(t) == Some(ParsedPath(drive, Parts(t[|Print(drive, [])|..])))
  {
    forall drive: nat | drive < 10
      ensures Print(drive, []) == [48 + drive, 58, 47]
    {
    }
    if Parse(t).Some? {
      assert Print(t[0] - 48, []) == t[..3];
    }
  }

  // ---------- The code ----------

  /** `struct path_part`: a name buffer and the next part. */
  class PathPart {
    const part: seq<uint8>
    var next: PathPart?

    constructor (part: seq<uint8>)
      ensures this.part == part && next == null
    {
      this.part := part;
      next := null;
    }
  }

  class PathRoot {
    const driveNo: int
    var first: PathPart?

    constructor (driveNo: int)
      ensures this.driveNo == driveNo && first == null
    {
      this.driveNo := driveNo;
      first := null;
    }
  }

  /** The nodes are those reached from first along `next`, holding these parts zero-padded. */
  ghost predicate IsPartList(first: PathPart?, nodes: seq<PathPart>, parts: seq<seq<uint8>>)
    reads nodes
  {
    && |nodes| == |parts|
    && first == (if nodes == [] then null else nodes[0])
    && (forall i :: 0 <= i < |nodes| ==> nodes[i].next == if i + 1 < |nodes| then nodes[i + 1] else null)
    && (forall i, j :: 0 <= i < j < |nodes| ==> nodes[i] != nodes[j])
    && (forall i :: 0 <= i < |nodes| ==> IsBuffer(nodes[i].part, parts[i]))
  }

  ghost predicate IsBuffer(buf: seq<uint8>, part: seq<uint8>) {
    |buf| == MAX_PATH && CStr(buf, 0) == part && ZeroPadded(buf)
  }

  /** `path_get_part`: a part's buffer, or null when it is empty, and the position after it. */
  method GetPart(path: seq<uint8>, pos: nat) returns (part: array?<uint8>, end: nat)
    requires Terminated(path, pos) && |CStr(path, pos)| < MAX_PATH
    ensures var t := CStr(path, pos);
      && (part == null <==> PartLength(t) == 0)
      && (part != null ==> IsBuffer(part[..], t[..PartLength(t)]))
      && CStr(path, end) == AfterPart(t) && Terminated(path, end) && |CStr(path, end)| < MAX_PATH
  {
    hide CStr, PartLength, AfterPart, IsBuffer;
    ghost var t := CStr(path, pos);
    CStrIs(path, pos);
    var buf := new uint8[MAX_PATH](_ => 0);
    var i := 0;
    while path[pos + i] != SLASH && path[pos + i] != 0
      invariant 0 <= i <= |t| && SLASH !in t[..i]
      invariant forall k :: 0 <= k < MAX_PATH ==> buf[k] == if k < i then t[k] else 0
      decreases |t| - i
    {
      assert t[i] == path[pos + i];
      buf[i] := path[pos + i];
      i := i + 1;
    }
    BufferHolds(buf[..], t[..i]);
    part := if i == 0 then null else buf;
    SplitAt(t, i);
    EndsBehindPart(path, pos, i);
    end := pos + i;
    if path[end] == SLASH {
      end := end + 1;
    }
  }

  /** What is left behind a part. */
  lemma EndsBehindPart(path: seq<uint8>, pos: nat, i: nat)
    requires Terminated(path, pos) && i <= |CStr(path, pos)| && (i < |CStr(path, pos)| ==> CStr(path, pos)[i] == SLASH)
    ensures path[pos + i] == SLASH <==> i < |CStr(path, pos)|
    ensures var end := if i < |CStr(path, pos)| then pos + i + 1 else pos + i;
      Terminated(path, end) && CStr(path, end) == if i < |CStr(path, pos)| then CStr(path, pos)[i + 1..] else []
  {
    hide CStr;
    CStrIs(path, pos);
    CStrSuffix(path, pos, i);
    if i < |CStr(path, pos)| {
      CStrSuffix(path, pos, i + 1);
    }
  }

  lemma SplitAt(t: seq<uint8>, i: nat)
    requires i <= |t| && SLASH !in t[..i] && (i < |t| ==> t[i] == SLASH)
    ensures PartLength(t) == i && AfterPart(t) == if i < |t| then t[i + 1..] else []
  {
    PartLengthIs(t, i);
  }

  lemma BufferHolds(buf: seq<uint8>, t: seq<uint8>)
    requires |buf| == MAX_PATH && |t| < MAX_PATH && 0 !in t
    requires forall k :: 0 <= k < MAX_PATH ==> buf[k] == if k < |t| then t[k] else 0
    ensures IsBuffer(buf, t)
  {
    CStrAt(buf, 0, |t|);
    hide CStr;
  }

  /** `path_parse_part`: one more part, linked behind the last one. */
  method ParsePart(last: PathPart?, path: seq<uint8>, pos: nat) returns (part: PathPart?, end: nat)
    requires Terminated(path, pos) && |CStr(path, pos)| < MAX_PATH
    modifies if last == null then {} else {last}
    ensures var parts := Parts(CStr(path, pos));
      && (part == null <==> parts == [])
      && (part != null ==> fresh(part) && part.next == null && IsBuffer(part.part, parts[0]))
      && (part != null ==> parts == [parts[0]] + Parts(CStr(path, end)))
    ensures last != null ==> last.next == if part == null then old(last.next) else part
    ensures Terminated(path, end) && |CStr(path, end)| < MAX_PATH
    ensures part != null ==> |CStr(path, end)| < |CStr(path, pos)|
  {
    hide CStr, PartLength, AfterPart, IsBuffer, Terminated;
    var partStr;
    partStr, end := GetPart(path, pos);
    if partStr == null {
      return null, end;
    }
    part := new PathPart(partStr[..]);
    if last != null {
      last.next := part;
    }
  }

  /** One round of the loop in `path_parse`: the list so far, and one more part if there is one. */
  method GrowList(first: PathPart, last: PathPart, path: seq<uint8>, pos: nat, ghost nodes: seq<PathPart>,
                  ghost parts: seq<seq<uint8>>)
    returns (part: PathPart?, end: nat)
    requires Terminated(path, pos) && |CStr(path, pos)| < MAX_PATH
    requires nodes != [] && last == nodes[|nodes| - 1] && IsPartList(first, nodes, parts)
    modifies last
    ensures var rest := Parts(CStr(path, pos));
      && (part == null <==> rest == [])
      && (part == null ==> IsPartList(first, nodes, parts))
      && (part != null ==> fresh(part) && IsPartList(first, nodes + [part], parts + [rest[0]])
                           && rest == [rest[0]] + Parts(CStr(path, end)))
    ensures Terminated(path, end) && |CStr(path, end)| < MAX_PATH
    ensures part != null ==> |CStr(path, end)| < |CStr(path, pos)|
  {
    hide CStr, Parts, IsBuffer, Terminated;
    part, end := ParsePart(last, path, pos);
    assert part == null ==> forall i :: 0 <= i < |nodes| ==> nodes[i].next == old(nodes[i].next);
  }

  /** `path_parse`. */
  method ParsePath(path: seq<uint8>) returns (root: PathRoot?, ghost nodes: seq<PathPart>)
    requires Terminated(path, 0)
    ensures root == null <==> Parse(CStr(path, 0)) == None
    ensures root != null ==> var p := Parse(CStr(path, 0)).value;
              root.driveNo == p.drive && IsPartList(root.first, nodes, p.parts)
  {
    hide CStr, Parts, IsPartList;
    CStrIs(path, 0);
    nodes := [];
    root := null;
    var len := Strlen(path);
    if len > MAX_PATH {
      return;
    }
    if !(len >= 3 && IsDigit(path[0]) && path[1] == COLON && path[2] == SLASH) {
      return;
    }
    root := new PathRoot(path[0] - 48);
    CStrSuffix(path, 0, 3);
    root.first, nodes := ParseParts(path, 3);
  }

  /** The list-building half of `path_parse`. */
  method ParseParts(path: seq<uint8>, start: nat) returns (first: PathPart?, ghost nodes: seq<PathPart>)
    requires Terminated(path, start) && |CStr(path, start)| < MAX_PATH
    ensures IsPartList(first, nodes, Parts(CStr(path, start))) && forall n <- nodes :: fresh(n)
  {
    hide CStr, Parts, IsBuffer, IsPartList, Terminated;
    ghost var all := Parts(CStr(path, start));
    EmptyList();
    nodes := [];
    var pos;
    first, pos := ParsePart(null, path, start);
    if first == null {
      return;
    }
    nodes := [first];
    ghost var parts := [all[0]];
    OnePart(first, parts);
    var part: PathPart? := first;
    while part != null
      invariant nodes != [] && (part != null ==> part == nodes[|nodes| - 1] && fresh(part))
      invariant (forall n <- nodes :: fresh(n)) && IsPartList(first, nodes, parts)
      invariant all == parts + if part == null then [] else Parts(CStr(path, pos))
      invariant Terminated(path, pos) && |CStr(path, pos)| < MAX_PATH
      decreases part != null, |CStr(path, pos)|
    {
      ghost var rest := Parts(CStr(path, pos));
      part, pos := GrowList(first, part, path, pos, nodes, parts);
      if part != null {
        nodes := nodes + [part];
        parts := parts + [rest[0]];
      }
    }
    assert all == parts;
  }

  method Strlen(path: seq<uint8>) returns (n: nat)
    requires Terminated(path, 0)
    ensures n == |CStr(path, 0)|
  {
    CStrIs(path, 0);
    n := 0;
    while path[n] != 0
      invariant n <= |CStr(path, 0)|
      decreases |path| - n
    {
      n := n + 1;
    }
  }

  lemma EmptyList()
    ensures IsPartList(null, [], [])
  {
  }

  lemma OnePart(node: PathPart, parts: seq<seq<uint8>>)
    requires |parts| == 1 && node.next == null && IsBuffer(node.part, parts[0])
    ensures IsPartList(node, [node], parts)
  {
  }
}
