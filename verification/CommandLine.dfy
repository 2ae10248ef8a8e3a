/** From a typed command line to a program's argc and argv. Allocations are numbered: `allocs` of them
    succeed before the first one fails. */
module CommandLine {
  import opened Machine
  import opened CString
  import opened StringTokens

  const ARG_SIZE := 512
  const COMMAND_SIZE := 1025
  const SPACE: seq<uint8> := [0x20]

  /** `struct cmd_arg`; its character array is part of the structure. */
  class CmdArg {
    var arg: seq<uint8>
    var next: CmdArg?

    constructor ()
      ensures next == null
    {
      arg := [];
      next := null;
    }
  }

  /** The nodes are those reached from root along `next`, each holding a string. */
  ghost predicate IsList(root: CmdArg?, nodes: seq<CmdArg>)
    reads nodes
  {
    && root == (if nodes == [] then null else nodes[0])
    && (forall i :: 0 <= i < |nodes| ==> nodes[i].next == if i + 1 < |nodes| then nodes[i + 1] else null)
    && (forall i, j :: 0 <= i < j < |nodes| ==> nodes[i] != nodes[j])
    && (forall i :: 0 <= i < |nodes| ==> |nodes[i].arg| == ARG_SIZE && Terminated(nodes[i].arg, 0))
  }

  /** The arguments a list of nodes holds. */
  ghost predicate Holds(nodes: seq<CmdArg>, toks: seq<seq<uint8>>)
    reads nodes
  {
    |nodes| <= |toks| && forall i :: 0 <= i < |nodes| ==> CStr(nodes[i].arg, 0) == Truncate(toks[i], ARG_SIZE - 1)
  }

  /** A node holding a copy of a token. */
  method NewArg(tok: array<uint8>, start: nat) returns (node: CmdArg)
    requires Terminated(tok[..], start)
    ensures fresh(node) && node.next == null && |node.arg| == ARG_SIZE
    ensures CStr(node.arg, 0) == Truncate(CStr(tok[..], start), ARG_SIZE - 1) && Terminated(node.arg, 0)
  {
    node := new CmdArg();
    var arg := new uint8[ARG_SIZE];
    Strncpy(arg, tok[..], start, ARG_SIZE);
    node.arg := arg[..];
  }

  lemma OneNode(node: CmdArg, toks: seq<seq<uint8>>)
    requires node.next == null && |node.arg| == ARG_SIZE && Terminated(node.arg, 0)
    requires |toks| > 0 && CStr(node.arg, 0) == Truncate(toks[0], ARG_SIZE - 1)
    ensures IsList(node, [node]) && Holds([node], toks)
  {
  }

  lemma PendingFirst(toks: seq<seq<uint8>>, tok: array<uint8>, start: nat, text: seq<uint8>)
    requires toks == [CStr(tok[..], start)] + Tokens(text, SPACE)
    ensures Pending(toks, 0, tok, start, text) && |toks| > 0
  {
  }

  lemma PendingMeans(toks: seq<seq<uint8>>, k: nat, tok: array?<uint8>, start: nat, text: seq<uint8>)
    requires Pending(toks, k, tok, start, text)
    ensures if tok == null then k == |toks| else k < |toks| && toks[k] == CStr(tok[..], start)
  {
  }

  lemma NoNodes(toks: seq<seq<uint8>>)
    ensures IsList(null, []) && Holds([], toks)
  {
  }

  /** Linking a new node behind the last one. */
  method Append(root: CmdArg, curr: CmdArg, node: CmdArg, ghost nodes: seq<CmdArg>, ghost toks: seq<seq<uint8>>)
    requires nodes != [] && IsList(root, nodes) && Holds(nodes, toks) && curr == nodes[|nodes| - 1]
    requires node !in nodes && node.next == null && |node.arg| == ARG_SIZE && Terminated(node.arg, 0)
    requires |nodes| < |toks| && CStr(node.arg, 0) == Truncate(toks[|nodes|], ARG_SIZE - 1)
    modifies curr
    ensures IsList(root, nodes + [node]) && Holds(nodes + [node], toks)
  {
    hide CStr, Terminated, Truncate;
    curr.next := node;
  }

  /** What strtok has yet to deliver after k tokens, the next one being at `start` of tok. */
  ghost predicate Pending(toks: seq<seq<uint8>>, k: nat, tok: array?<uint8>, start: nat, text: seq<uint8>)
    reads tok
  {
    if tok == null then k == |toks|
    else k < |toks| && toks[k] == CStr(tok[..], start) && toks[k + 1..] == Tokens(text, SPACE)
  }

  /** `strtok(NULL, " ")` in the middle of a command: one more token, or the end. */
  method NextArg(st: StrTok, ghost toks: seq<seq<uint8>>, ghost k: nat, ghost tok0: array<uint8>, ghost start0: nat)
    returns (tok: array?<uint8>, start: nat)
    requires st.Valid() && st.buf == tok0 && Pending(toks, k, tok0, start0, st.Text())
    modifies st, st.buf
    ensures st.Valid() && st.buf == tok && (tok != null ==> tok == tok0 && Terminated(tok[..], start))
    ensures Pending(toks, k + 1, tok, start, st.Text())
  {
    hide Tokens, CStr, Terminated;
    ghost var rest := Tokens(st.Text(), SPACE);
    tok, start := st.Next(null, SPACE);
    assert tok != null ==> toks[k + 2..] == rest[1..];
  }

  /** `enki_parse_cmd`. It delivers the command's tokens, or as many as could be allocated; and it leaves
      strtok's cursor null, ready for another command, exactly when every allocation succeeded. */
  method ParseCmd(st: StrTok, cmd: seq<uint8>, max: int, allocs: nat) returns (root: CmdArg?, ghost nodes: seq<CmdArg>)
    requires st.buf == null && Terminated(cmd, 0)
    modifies st
    ensures IsList(root, nodes) && (forall n <- nodes :: fresh(n))
    ensures max >= COMMAND_SIZE ==> nodes == [] && st.buf == null
    ensures max < COMMAND_SIZE ==>
      var toks := Tokens(Truncate(CStr(cmd, 0), COMMAND_SIZE - 1), SPACE);
      && |nodes| == (if |toks| <= allocs then |toks| else allocs) && Holds(nodes, toks)
      && (st.buf == null <==> |toks| <= allocs)
  {
    hide Tokens, CStr, Terminated, Truncate, IsList, Holds, Pending;
    root, nodes := null, [];
    NoNodes([]);
    if max >= COMMAND_SIZE {
      return;
    }
    var scmd := new uint8[COMMAND_SIZE];
    Strncpy(scmd, cmd, 0, COMMAND_SIZE);
    ghost var toks := Tokens(CStr(scmd[..], 0), SPACE);
    NoNodes(toks);
    var tok, start := st.Next(scmd, SPACE);
    if tok == null {
      return;
    }
    PendingFirst(toks, tok, start, st.Text());
    if allocs == 0 {
      return;
    }
    root := NewArg(tok, start);
    OneNode(root, toks);
    tok, start := NextArg(st, toks, 0, tok, start);
    nodes := ParseRest(st, scmd, root, toks, tok, start, allocs);
  }

  /** The loop of `enki_parse_cmd`, after the first token. */
  method ParseRest(st: StrTok, scmd: array<uint8>, root: CmdArg, ghost toks: seq<seq<uint8>>,
                   tok0: array?<uint8>, start0: nat, allocs: nat)
    returns (ghost nodes: seq<CmdArg>)
    requires st.Valid() && st.buf == tok0 && (tok0 != null ==> tok0 == scmd && Terminated(tok0[..], start0))
    requires allocs > 0 && IsList(root, [root]) && Holds([root], toks) && Pending(toks, 1, tok0, start0, st.Text())
    modifies st, scmd, root
    ensures IsList(root, nodes) && (forall n <- nodes :: n == root || fresh(n))
    ensures |nodes| == (if |toks| <= allocs then |toks| else allocs) && Holds(nodes, toks)
    ensures st.buf == null <==> |toks| <= allocs
  {
    hide Tokens, CStr, Terminated, Truncate, IsList, Holds, Pending;
    nodes := [root];
    var curr, count, tok, start := root, 1, tok0, start0;
    while tok != null
      invariant st.Valid() && st.buf == tok && (tok != null ==> tok == scmd && Terminated(tok[..], start))
      invariant 1 <= count == |nodes| <= allocs && curr == nodes[|nodes| - 1]
      invariant (curr == root || fresh(curr)) && forall n <- nodes :: n == root || fresh(n)
      invariant IsList(root, nodes) && Holds(nodes, toks)
      invariant Pending(toks, count, tok, start, st.Text())
      decreases |toks| - count
    {
      PendingMeans(toks, count, tok, start, st.Text());
      if count == allocs {
        break;
      }
      var node := NewArg(tok, start);
      Append(root, curr, node, nodes, toks);
      curr := node;
      nodes := nodes + [node];
      tok, start := NextArg(st, toks, count, tok, start);
      count := count + 1;
    }
    PendingMeans(toks, count, tok, start, st.Text());
  }

  // ---------- The kernel's side ----------

  /** `struct process_args`; a pointer is null until set. */
  class ProcessArgs {
    var argc: int
    var argv: array?<array?<uint8>>

    constructor ()
      ensures argc == 0 && argv == null
    {
      argc, argv := 0, null;
    }
  }

  /** argv[i] points at a copy of the i-th argument, for every i below n. */
  ghost predicate Copied(argv: array<array?<uint8>>, strings: seq<seq<uint8>>, n: nat)
    reads argv, argv[..]
  {
    n <= argv.Length && n <= |strings|
    && forall i :: 0 <= i < n ==> argv[i] != null && CStr(argv[i][..], 0) == strings[i]
  }

  /** `process_count_cmd_args`. */
  method CountArgs(root: CmdArg?, ghost nodes: seq<CmdArg>) returns (n: nat)
    requires IsList(root, nodes)
    ensures n == |nodes|
  {
    var arg := root;
    n := 0;
    while arg != null
      invariant IsList(root, nodes)
      invariant n <= |nodes| && arg == if n < |nodes| then nodes[n] else null
      decreases |nodes| - n
    {
      assert n < |nodes| && arg == nodes[n];
      assert nodes[n].next == if n + 1 < |nodes| then nodes[n + 1] else null;
      arg := arg.next;
      n := n + 1;
    }
  }

  ghost function Strings(nodes: seq<CmdArg>): seq<seq<uint8>>
    reads nodes
  {
    seq(|nodes|, i requires 0 <= i < |nodes| reads nodes => CStr(nodes[i].arg, 0))
  }

  lemma StringsOf(nodes: seq<CmdArg>) returns (strings: seq<seq<uint8>>)
    ensures strings == Strings(nodes) && |strings| == |nodes|
    ensures forall i :: 0 <= i < |nodes| ==> strings[i] == CStr(nodes[i].arg, 0)
  {
    strings := Strings(nodes);
  }

  lemma NothingCopied(argv: array<array?<uint8>>, strings: seq<seq<uint8>>)
    ensures Copied(argv, strings, 0)
  {
  }

  /** `process_inject_args`. It needs one allocation for argv and one for every argument. */
  method InjectArgs(args: ProcessArgs, root: CmdArg?, ghost nodes: seq<CmdArg>, allocs: nat) returns (status: int)
    requires IsList(root, nodes)
    modifies args
    ensures status == if nodes == [] then -EIO else if allocs < |nodes| + 1 then -ENOMEM else 0
    ensures status != 0 ==> args.argc == old(args.argc) && args.argv == old(args.argv)
    ensures status == 0 ==> args.argc == |nodes| && args.argv != null && args.argv.Length == |nodes|
                            && Copied(args.argv, Strings(nodes), |nodes|)
  {
    hide CStr, Terminated, Copied, Strings;
    var argc := CountArgs(root, nodes);
    if argc == 0 {
      return -EIO;
    }
    if allocs == 0 {
      return -ENOMEM;
    }
    var argv := new array?<uint8>[argc](_ => null);
    ghost var strings := StringsOf(nodes);
    NothingCopied(argv, strings);
    var current, i := root, 0;
    while current != null
      invariant i <= |nodes| && current == if i < |nodes| then nodes[i] else null
      invariant i + 1 <= allocs && args.argc == old(args.argc) && args.argv == old(args.argv)
      invariant fresh(argv) && (forall k :: 0 <= k < i ==> argv[k] != null && fresh(argv[k]))
      invariant Copied(argv, strings, i)
      decreases |nodes| - i
    {
      if allocs == i + 1 {
        return -ENOMEM;
      }
      var arg := CopyArg(current);
      StoreArg(argv, arg, strings, i);
      current := current.next;
      i := i + 1;
    }
    args.argc := argc;
    args.argv := argv;
    status := 0;
  }

  method CopyArg(node: CmdArg) returns (s: array<uint8>)
    requires |node.arg| == ARG_SIZE && Terminated(node.arg, 0)
    ensures fresh(s) && CStr(s[..], 0) == CStr(node.arg, 0)
  {
    s := new uint8[ARG_SIZE];
    Strncpy(s, node.arg, 0, ARG_SIZE);
    assert |CStr(node.arg, 0)| < ARG_SIZE;
  }

  method StoreArg(argv: array<array?<uint8>>, s: array<uint8>, ghost strings: seq<seq<uint8>>, i: nat)
    requires Copied(argv, strings, i) && i < argv.Length && i < |strings| && CStr(s[..], 0) == strings[i]
    modifies argv
    ensures Copied(argv, strings, i + 1)
    ensures argv[i] == s && forall k :: 0 <= k < argv.Length && k != i ==> argv[k] == old(argv[k])
  {
    argv[i] := s;
  }

  const RUN_BUFFER_SIZE := 1024

  /** The tokens of a command that could be allocated. */
  function Delivered(command: seq<uint8>, allocs: nat): (toks: seq<seq<uint8>>)
    ensures toks <= Tokens(Truncate(command, 1023), SPACE) && |toks| <= allocs
    ensures |toks| == |Tokens(Truncate(command, 1023), SPACE)| || |toks| == allocs
  {
    var all := Tokens(Truncate(command, RUN_BUFFER_SIZE - 1), SPACE);
    if |all| <= allocs then all else all[..allocs]
  }

  /** `enki_system_run` and the system call behind it: a typed command becomes the new process's arguments, given what
      loading the program returned. They are the command's tokens in order, each cut to 511 characters, as many as the
      program running the command could allocate; and strtok is ready again exactly if it could allocate them all. */
  method SystemRun(st: StrTok, command: seq<uint8>, args: ProcessArgs, userAllocs: nat, loaded: int, kernelAllocs: nat)
    returns (status: int)
    requires st.buf == null && Terminated(command, 0)
    modifies st, args
    ensures var toks := Delivered(CStr(command, 0), userAllocs);
      && (status == if toks == [] then -1 else if loaded < 0 then loaded
                    else if kernelAllocs <= |toks| then -ENOMEM else 0)
      && (status == 0 ==> ArgsAre(args, toks))
    ensures status != 0 ==> args.argc == old(args.argc) && args.argv == old(args.argv)
    ensures st.buf == null <==> |Tokens(Truncate(CStr(command, 0), RUN_BUFFER_SIZE - 1), SPACE)| <= userAllocs
  {
    hide Tokens, Copied, IsList, Holds, ArgsAre, CStr, Terminated, IsToken;
    var buf := new uint8[RUN_BUFFER_SIZE];
    Strncpy(buf, command, 0, RUN_BUFFER_SIZE);
    ghost var all := Tokens(CStr(buf[..], 0), SPACE);
    ghost var toks := Delivered(CStr(command, 0), userAllocs);
    AlreadyCut(CStr(buf[..], 0));
    var root, nodes := ParseCmd(st, buf[..], RUN_BUFFER_SIZE, userAllocs);
    RootOf(root, nodes);
    if root == null {
      return -1;
    }
    FirstArgument(root, nodes, CStr(buf[..], 0));
    assert root.arg[0] != 0;  // so the system call's check for an empty name never fails
    if loaded < 0 {
      return loaded;
    }
    HoldsPrefix(nodes, all, toks);
    status := InjectArgs(args, root, nodes, kernelAllocs);
    if status == 0 {
      CopiedArgs(args, nodes, toks);
    }
  }

  lemma AlreadyCut(t: seq<uint8>)
    requires |t| <= RUN_BUFFER_SIZE - 1
    ensures Truncate(t, COMMAND_SIZE - 1) == t && Truncate(t, RUN_BUFFER_SIZE - 1) == t
  {
  }

  lemma HoldsPrefix(nodes: seq<CmdArg>, all: seq<seq<uint8>>, toks: seq<seq<uint8>>)
    requires Holds(nodes, all) && |nodes| == |toks| && toks <= all
    ensures Holds(nodes, toks)
  {
    hide CStr, Truncate;
  }

  /** The first argument is not empty. */
  lemma FirstArgument(root: CmdArg, nodes: seq<CmdArg>, text: seq<uint8>)
    requires IsList(root, nodes) && Holds(nodes, Tokens(text, SPACE))
    ensures |root.arg| == ARG_SIZE && root.arg[0] != 0
  {
    hide Tokens, Terminated;
    TokensAreTokens(text, SPACE, 0);
    assert CStr(root.arg, 0) == Truncate(Tokens(text, SPACE)[0], ARG_SIZE - 1);
    assert |CStr(root.arg, 0)| > 0;
  }

  /** argc and argv are the tokens, each cut to 511 characters. */
  ghost predicate ArgsAre(args: ProcessArgs, toks: seq<seq<uint8>>)
    reads args, args.argv, if args.argv == null then [] else args.argv[..]
  {
    && args.argc == |toks| && args.argv != null && args.argv.Length == |toks|
    && forall i :: 0 <= i < |toks| ==> args.argv[i] != null && CStr(args.argv[i][..], 0) == Truncate(toks[i], ARG_SIZE - 1)
  }

  lemma RootOf(root: CmdArg?, nodes: seq<CmdArg>)
    requires IsList(root, nodes)
    ensures root == null <==> nodes == []
  {
  }

  lemma CopiedArgs(args: ProcessArgs, nodes: seq<CmdArg>, toks: seq<seq<uint8>>)
    requires Holds(nodes, toks) && |nodes| == |toks|
    requires args.argc == |nodes| && args.argv != null && args.argv.Length == |nodes|
    requires Copied(args.argv, Strings(nodes), |nodes|)
    ensures ArgsAre(args, toks)
  {
    hide CStr, Truncate;
  }
}
