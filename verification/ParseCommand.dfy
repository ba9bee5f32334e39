/** alphaos_parse_command: a command line becomes a linked list of arguments. */
module ParseCommand {
  import opened CommandLine

  const DELIMITER := " "

  class Argument {
    const argument: array<char>
    var next: Argument?

    constructor ()
      ensures fresh(argument) && argument.Length == ARGUMENT_SIZE && next == null
    {
      argument := new char[ARGUMENT_SIZE](_ => NUL);
      next := null;
    }
  }

  function Cut(t: string, n: nat): string {
    if |t| > n then t[..n] else t
  }

  function CutAll(w: seq<string>): (r: seq<string>)
    ensures |r| == |w|
  {
    seq(|w|, i requires 0 <= i < |w| => Cut(w[i], ARGUMENT_SIZE - 1))
  }

  /** Each word is cut to its first 511 characters. */
  lemma CutTo511(w: seq<string>, i: nat)
    requires i < |w|
    ensures CutAll(w)[i] <= w[i] && |CutAll(w)[i]| == if |w[i]| > 511 then 511 else |w[i]|
  {
  }

  /** strncpy: at most n - 1 characters, always terminated. */
  method Strncpy(dest: array<char>, src: array<char>, from: nat, n: nat)
    requires 1 <= n <= dest.Length && dest != src && Terminated(src[..], from)
    modifies dest
    ensures Terminated(dest[..], 0) && Text(dest[..], 0) == Cut(Text(src[..], from), n - 1)
    ensures var t := old(Cut(Text(src[..], from), n - 1));
      |t| < dest.Length && dest[..] == t + [NUL] + old(dest[..])[|t| + 1..]
  {
    hide Text;
    ghost var t := Text(src[..], from);
    TextIs(src[..], from);
    var i := 0;
    while i < n - 1
      invariant 0 <= i <= n - 1 && i <= |t|
      invariant dest[..i] == t[..i] && dest[i..] == old(dest[..])[i..]
    {
      if src[from + i] == NUL {
        break;
      }
      dest[i] := src[from + i];
      i := i + 1;
    }
    ghost var before := dest[..];
    assert before[i + 1..] == before[i..][1..] == old(dest[..])[i..][1..] == old(dest[..])[i + 1..];
    dest[i] := NUL;
    assert dest[..] == before[..i] + [NUL] + before[i + 1..];
    assert dest[..i] == before[..i] == t[..i] == Cut(t, n - 1);
    forall j | 0 <= j < i ensures dest[..][j] != NUL {
      assert dest[..i][j] == t[j];
    }
    TextUpTo(dest[..], 0, i);
    assert dest[..][0..i] == t[..i];
  }

  ghost predicate IsList(root: Argument?, nodes: seq<Argument>)
    reads nodes
  {
    && root == (if nodes == [] then null else nodes[0])
    && (forall i {:trigger nodes[i].next} :: 0 <= i < |nodes| ==> nodes[i].next == if i + 1 < |nodes| then nodes[i + 1] else null)
    && (forall i, j :: 0 <= i < j < |nodes| ==> nodes[i] != nodes[j])
  }

  ghost function Arrays(nodes: seq<Argument>): set<object> {
    set i | 0 <= i < |nodes| :: nodes[i].argument
  }

  ghost predicate Holds(nodes: seq<Argument>, w: seq<string>)
    reads Arrays(nodes)
  {
    && |nodes| == |w|
    && forall i :: 0 <= i < |nodes| ==>
      nodes[i].argument.Length == ARGUMENT_SIZE && Terminated(nodes[i].argument[..], 0) && Text(nodes[i].argument[..], 0) == w[i]
  }

  /** The words still to come: the first stands at `token`, the others in the string at `sp`. */
  ghost predicate Pending(token: Cursor, sp: Cursor, buf: array<char>, rest: seq<string>)
    reads buf
  {
    if rest == [] then token == Null && sp == Null
    else
      && token.At? && sp.At? && token.buf == sp.buf == buf
      && Readable(token) && Readable(sp)
      && Rest(token) == rest[0] && Words(Rest(sp), DELIMITER) == rest[1..]
  }

  /** Linking a new node behind the last one. */
  method Link(current: Argument, arg: Argument, ghost root: Argument?, ghost nodes: seq<Argument>, ghost w: seq<string>, ghost t: string)
    requires nodes != [] && current == nodes[|nodes| - 1] && IsList(root, nodes) && Holds(nodes, w)
    requires IsList(arg, [arg]) && Holds([arg], [t]) && arg !in nodes
    modifies current`next
    ensures IsList(root, nodes + [arg]) && Holds(nodes + [arg], w + [t])
  {
    hide Text;
    current.next := arg;
    HoldsOne(arg, t);
    ghost var more := nodes + [arg];
    forall i {:trigger more[i].next} | 0 <= i < |more|
      ensures more[i].next == if i + 1 < |more| then more[i + 1] else null
    {
      if i < |nodes| - 1 { assert nodes[i].next == nodes[i + 1] && nodes[i] != current; }
      if i == |nodes| { assert [arg][0].next == null; }
    }
    forall i | 0 <= i < |more| ensures Keeps(more[i], (w + [t])[i]) {
      if i < |nodes| { HoldsAt(nodes, w, i); }
    }
    HoldsAll(more, w + [t]);
  }

  ghost predicate Keeps(node: Argument, t: string)
    reads node.argument
  {
    node.argument.Length == ARGUMENT_SIZE && Terminated(node.argument[..], 0) && Text(node.argument[..], 0) == t
  }

  lemma HoldsOne(arg: Argument, t: string)
    requires Holds([arg], [t])
    ensures Keeps(arg, t)
  {
    hide Text;
    assert [arg][0] == arg;
  }

  lemma HoldsAt(nodes: seq<Argument>, w: seq<string>, i: nat)
    requires Holds(nodes, w) && i < |nodes|
    ensures Keeps(nodes[i], w[i])
  {
    hide Text;
  }

  lemma HoldsAll(nodes: seq<Argument>, w: seq<string>)
    requires |nodes| == |w| && forall i :: 0 <= i < |nodes| ==> Keeps(nodes[i], w[i])
    ensures Holds(nodes, w)
  {
    hide Text;
    forall i | 0 <= i < |nodes| ensures nodes[i].argument.Length == ARGUMENT_SIZE && Terminated(nodes[i].argument[..], 0) && Text(nodes[i].argument[..], 0) == w[i] {
      assert Keeps(nodes[i], w[i]);
    }
  }

  lemma CutMore(w: seq<string>, i: nat)
    requires i < |w|
    ensures CutAll(w[..i + 1]) == CutAll(w[..i]) + [Cut(w[i], ARGUMENT_SIZE - 1)]
  {
  }

  lemma PendingNull(token: Cursor, sp: Cursor, buf: array<char>, rest: seq<string>)
    requires Pending(token, sp, buf, rest)
    ensures token == Null <==> rest == []
    ensures if rest == [] then sp == Null else sp.At? && sp.buf == buf && Readable(sp)
  {
    hide Text, Words;
  }

  lemma NoNodes(w: seq<string>)
    ensures IsList(null, []) && Holds([], CutAll(w[..0]))
  {
  }

  lemma FirstNode(w: seq<string>)
    requires w != []
    ensures CutAll(w[..1]) == [Cut(w[0], ARGUMENT_SIZE - 1)] && w[0..] == w
  {
  }

  /** What stands at position p of the frame after command t was copied in: a part of the new command, or
      behind its end what was there before. */
  function AtPosition(frame: seq<char>, t: string, p: nat): string
    requires p <= |frame|
  {
    if p <= |t| then t[p..] else Text(frame, p)
  }

  lemma CopiedOver(frame: seq<char>, frame': seq<char>, t: string, p: nat)
    requires |t| < |frame| && NUL !in t && frame' == t + [NUL] + frame[|t| + 1..] && Terminated(frame, p)
    ensures Terminated(frame', p) && Text(frame', p) == AtPosition(frame, t, p)
  {
    hide Text;
    if p <= |t| {
      TextUpTo(frame', p, |t| - p);
      assert frame'[p..p + (|t| - p)] == t[p..];
    } else {
      assert frame'[p..] == frame[p..];
      TextShift(frame', frame, p, p);
    }
  }

  class Shell {
    const tokenizer: Tokenizer
    /** The stack frame of alphaos_parse_command: every call finds its scommand in the same place. */
    const frame: array<char>
    /** How many more malloc calls succeed. */
    var mallocs: nat

    constructor (tokenizer: Tokenizer, mallocs: nat)
      requires tokenizer.sp == Null
      ensures this.tokenizer == tokenizer && this.mallocs == mallocs && Valid()
    {
      this.tokenizer, this.mallocs := tokenizer, mallocs;
      frame := new char[MAX_COMMAND](_ => NUL);
    }

    /** A set sp points into the frame. */
    ghost predicate Valid()
      reads this, tokenizer, frame
    {
      && frame.Length == MAX_COMMAND
      && (tokenizer.sp.At? ==> tokenizer.sp.buf == frame && Readable(tokenizer.sp))
    }

    /** The text strtok is going to work on. */
    ghost function Source(command: string): string
      requires Valid()
      reads this, tokenizer, frame
    {
      var t := Cut(command, MAX_COMMAND - 1);
      if tokenizer.sp == Null then t else AtPosition(frame[..], t, tokenizer.sp.pos)
    }

    method NewArgument(token: Cursor) returns (arg: Argument?)
      requires token.At? && Readable(token)
      modifies this`mallocs
      ensures arg == null <==> old(mallocs) == 0
      ensures arg == null ==> mallocs == 0
      ensures arg != null ==> mallocs == old(mallocs) - 1 && fresh(arg) && fresh(arg.argument)
      ensures arg != null ==> Holds([arg], [Cut(Rest(token), ARGUMENT_SIZE - 1)]) && IsList(arg, [arg])
    {
      if mallocs == 0 {
        return null;
      }
      mallocs := mallocs - 1;
      arg := new Argument();
      Strncpy(arg.argument, token.buf, token.pos, ARGUMENT_SIZE);
    }

    /** The words of the command become the list, or, while sp is set, those of what the copied command
        leaves at the old position; a word is cut to 511 characters. The list is complete, and sp reset,
        exactly when every malloc succeeds. */
    method Parse(command: array<char>, max: int) returns (root: Argument?, ghost nodes: seq<Argument>)
      requires Valid() && Terminated(command[..], 0) && command != frame
      modifies this`mallocs, tokenizer, frame
      ensures Valid()
      ensures max > 1025 ==> root == null && nodes == [] && mallocs == old(mallocs) && tokenizer.sp == old(tokenizer.sp)
      ensures IsList(root, nodes) && forall i :: 0 <= i < |nodes| ==> fresh(nodes[i]) && fresh(nodes[i].argument)
      ensures max <= 1025 ==>
        var text := old(Source(Text(command[..], 0)));
        var w := Words(text, DELIMITER);
        var n := if |w| <= old(mallocs) then |w| else old(mallocs);
        && Holds(nodes, CutAll(w[..n]))
        && mallocs == old(mallocs) - n
        && (tokenizer.sp == Null <==> |w| <= old(mallocs))
        && (old(mallocs) == 0 && w != [] ==>
            tokenizer.sp == At(frame, (if old(tokenizer.sp) == Null then 0 else old(tokenizer.sp.pos)) + FirstEnd(text, DELIMITER)))
    {
      hide Text, Words, CutAll, Holds, IsList, Pending, FirstEnd, AtPosition;
      root, nodes := null, [];
      NoNodes([]);
      if max > MAX_COMMAND {
        return;
      }
      ghost var t, before := Cut(Text(command[..], 0), MAX_COMMAND - 1), frame[..];
      ghost var text := Source(Text(command[..], 0));
      TextIs(command[..], 0);
      Strncpy(frame, command, 0, MAX_COMMAND);
      if tokenizer.sp.At? {
        CopiedOver(before, frame[..], t, tokenizer.sp.pos);
      }
      var token := NextToken(At(frame, 0), frame);
      PendingNull(token, tokenizer.sp, frame, Words(text, DELIMITER));
      NoNodes(Words(text, DELIMITER));
      if token == Null {
        return;
      }
      root, nodes := Collect(token, frame, Words(text, DELIMITER));
    }

    method NewNode(token: Cursor, ghost buf: array<char>, ghost w: seq<string>) returns (arg: Argument?)
      requires w != [] && Pending(token, tokenizer.sp, buf, w)
      modifies this`mallocs
      ensures Pending(token, tokenizer.sp, buf, w) && tokenizer.sp != Null && token != Null && tokenizer.sp == old(tokenizer.sp)
      ensures arg == null <==> old(mallocs) == 0
      ensures arg == null ==> mallocs == 0
      ensures arg != null ==> mallocs == old(mallocs) - 1 && fresh(arg) && fresh(arg.argument)
      ensures arg != null ==> Holds([arg], [Cut(w[0], ARGUMENT_SIZE - 1)]) && IsList(arg, [arg])
    {
      hide Text, Words, Holds, IsList;
      arg := NewArgument(token);
    }

    method NextWord(ghost last: Cursor, ghost buf: array<char>, ghost w: seq<string>) returns (token: Cursor)
      requires w != [] && Pending(last, tokenizer.sp, buf, w)
      modifies tokenizer, buf
      ensures Pending(token, tokenizer.sp, buf, w[1..])
      ensures (token == Null <==> |w| == 1) && (tokenizer.sp == Null <==> |w| == 1)
    {
      hide Text, Words;
      token := NextToken(Null, buf);
    }

    /** One more word of the list. */
    method Extend(current: Argument, token: Cursor, ghost buf: array<char>, ghost root: Argument?, ghost nodes: seq<Argument>,
                  ghost w: seq<string>, ghost i: nat) returns (arg: Argument?)
      requires i < |w| && Pending(token, tokenizer.sp, buf, w[i..])
      requires nodes != [] && current == nodes[|nodes| - 1] && IsList(root, nodes) && Holds(nodes, CutAll(w[..i]))
      modifies this`mallocs, current`next
      ensures Pending(token, tokenizer.sp, buf, w[i..])
      ensures arg == null <==> old(mallocs) == 0
      ensures arg == null ==> mallocs == 0 && IsList(root, nodes) && Holds(nodes, CutAll(w[..i]))
      ensures arg != null ==> mallocs == old(mallocs) - 1 && fresh(arg) && fresh(arg.argument)
      ensures arg != null ==> IsList(root, nodes + [arg]) && Holds(nodes + [arg], CutAll(w[..i + 1]))
    {
      hide Text, Words, Pending, CutAll, Holds, IsList;
      assert forall o :: o in Arrays(nodes) ==> allocated(o);
      arg := NewNode(token, buf, w[i..]);
      if arg != null {
        CutMore(w, i);
        Link(current, arg, root, nodes, CutAll(w[..i]), Cut(w[i], ARGUMENT_SIZE - 1));
      }
    }

    /** alphaos_parse_command from the first token on. */
    method Collect(first: Cursor, ghost buf: array<char>, ghost w: seq<string>) returns (root: Argument?, ghost nodes: seq<Argument>)
      requires w != [] && Pending(first, tokenizer.sp, buf, w)
      modifies this`mallocs, tokenizer, buf
      ensures IsList(root, nodes) && forall i :: 0 <= i < |nodes| ==> fresh(nodes[i]) && fresh(nodes[i].argument)
      ensures var n := if |w| <= old(mallocs) then |w| else old(mallocs);
        && Holds(nodes, CutAll(w[..n]))
        && mallocs == old(mallocs) - n
        && (tokenizer.sp == Null <==> |w| <= old(mallocs))
      ensures tokenizer.sp.At? ==> tokenizer.sp.buf == buf && Readable(tokenizer.sp)
      ensures old(mallocs) == 0 ==> tokenizer.sp == old(tokenizer.sp)
    {
      hide Text, Words, Pending, CutAll, Holds, IsList;
      nodes := [];
      root := NewNode(first, buf, w);
      if root == null {
        PendingNull(first, tokenizer.sp, buf, w);
        NoNodes(w);
        return;
      }
      nodes := [root];
      FirstNode(w);
      var current: Argument := root;
      assert forall o :: o in Arrays(nodes) ==> fresh(o);
      var token := NextWord(first, buf, w);
      ghost var i := 1;
      while token != Null
        invariant 1 <= i <= |w| && |nodes| == i && mallocs == old(mallocs) - i && current == nodes[i - 1]
        invariant Pending(token, tokenizer.sp, buf, w[i..])
        invariant token == Null <==> i == |w|
        invariant tokenizer.sp == Null <==> i == |w|
        invariant IsList(root, nodes) && Holds(nodes, CutAll(w[..i]))
        invariant forall j :: 0 <= j < |nodes| ==> fresh(nodes[j]) && fresh(nodes[j].argument)
        decreases |w| - i
      {
        var arg := Extend(current, token, buf, root, nodes, w, i);
        if arg == null {
          break;
        }
        nodes := nodes + [arg];
        current := arg;
        assert forall o :: o in Arrays(nodes) ==> fresh(o);
        token := NextWord(token, buf, w[i..]);
        assert w[i..][1..] == w[i + 1..];
        i := i + 1;
      }
      PendingNull(token, tokenizer.sp, buf, w[i..]);
      assert w[..i] == w[..if |w| <= old(mallocs) then |w| else old(mallocs)];
    }

    /** strtok, seen as taking the next word of what is left. */
    method NextToken(str: Cursor, ghost buf: array<char>) returns (token: Cursor)
      requires Readable(tokenizer.Source(str)) && tokenizer.Source(str).At? && tokenizer.Source(str).buf == buf
      modifies tokenizer, buf
      ensures Pending(token, tokenizer.sp, buf, Words(old(Rest(tokenizer.Source(str))), DELIMITER))
      ensures token != Null ==>
        tokenizer.sp == At(buf, old(tokenizer.Source(str).pos) + FirstEnd(old(Rest(tokenizer.Source(str))), DELIMITER))
    {
      hide Text, Words, Skip, Until, FirstEnd;
      ghost var t := Rest(tokenizer.Source(str));
      WordsStep(t, DELIMITER);
      token := tokenizer.Strtok(str, DELIMITER);
    }
  }

  /** Example: "ls a" is parsed while no memory is left, so sp stays behind "ls "; the next command,
      "echo hi", is read from there on and becomes "o", "hi". */
  method LostStartExample(shell: Shell, first: array<char>, second: array<char>) returns (root: Argument?, ghost nodes: seq<Argument>)
    requires shell.Valid() && shell.tokenizer.sp == Null && shell.mallocs == 0
    requires first != shell.frame && Terminated(first[..], 0) && Text(first[..], 0) == "ls a"
    requires second != shell.frame && Terminated(second[..], 0) && Text(second[..], 0) == "echo hi"
    modifies shell`mallocs, shell.tokenizer, shell.frame
    ensures Holds(nodes, ["o", "hi"]) && shell.tokenizer.sp == Null
  {
    hide Text, Words, FirstEnd, CutAll, Holds;
    ExampleWords();
    root, nodes := shell.Parse(first, MAX_COMMAND);
    shell.mallocs := 2;
    assert shell.Source("echo hi") == "echo hi"[3..] == "o hi";
    root, nodes := shell.Parse(second, MAX_COMMAND);
    assert ["o", "hi"][..2] == ["o", "hi"];
  }

  lemma ExampleWords()
    ensures FirstEnd("ls a", DELIMITER) == 3 && Words("ls a", DELIMITER) == ["ls", "a"]
    ensures Words("o hi", DELIMITER) == ["o", "hi"] && CutAll(["o", "hi"]) == ["o", "hi"]
  {
    hide Words;
    assert "ls" + [' '] + "a" == "ls a" && "o" + [' '] + "hi" == "o hi";
    WordsSplit("ls", ' ', "a", DELIMITER);
    WordsSplit("o", ' ', "hi", DELIMITER);
    WordsOfOne("ls", DELIMITER);
    WordsOfOne("a", DELIMITER);
    WordsOfOne("o", DELIMITER);
    WordsOfOne("hi", DELIMITER);
    UntilSplit("ls", ' ', "a", DELIMITER);
    UntilAll("ls", DELIMITER);
    assert "ls a"[0..] == "ls a";
  }
}
