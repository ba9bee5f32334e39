/** system_run, end to end: the words of a command line become the argument vector of a process. */
module SystemRun {
  import opened Bits
  import opened Memory
  import opened HeapTable
  import opened Kernel
  import opened ProcessMemory
  import opened CommandLine
  import opened ParseCommand
  import opened InjectArguments

  const BUFFER := 1024

  /** What system_run makes of a command line. */
  function Arguments(command: string, mallocs: nat): (w: seq<string>)
    ensures |w| <= mallocs
  {
    var w := Words(Cut(command, BUFFER - 1), DELIMITER);
    CutAll(w[..if |w| <= mallocs then |w| else mallocs])
  }

  /** A command of up to 1023 characters loses nothing but the words for which there is no memory, and what
      a word has beyond 511 characters. */
  lemma ArgumentsAreWords(command: string, mallocs: nat, i: nat)
    requires |command| <= 1023
    ensures |Arguments(command, mallocs)| == if |Words(command, " ")| <= mallocs then |Words(command, " ")| else mallocs
    ensures i < |Arguments(command, mallocs)| ==>
      && Arguments(command, mallocs)[i] <= Words(command, " ")[i]
      && |Arguments(command, mallocs)[i]| == if |Words(command, " ")[i]| > 511 then 511 else |Words(command, " ")[i]|
  {
    hide Words;
  }

  lemma SliceChars(t: string, i: nat, j: nat)
    requires i <= j <= |t|
    ensures forall c :: c in t[i..j] ==> c in t
    ensures j == |t| ==> t[i..j] == t[i..]
  {
  }

  lemma WordsUnfold(t: string, d: string)
    requires Words(t, d) != []
    ensures var u := t[Skip(t, d)..];
      Words(t, d) == [u[..Until(u, d)]] + Words(AfterWord(u, d), d) && |AfterWord(u, d)| < |t|
  {
    hide Skip, Until;
  }

  /** What follows a word consists of characters of the string. */
  lemma AfterChars(t: string, u: string, d: string)
    requires forall c :: c in u ==> c in t
    ensures forall c :: c in AfterWord(u, d) ==> c in t
    ensures forall c :: c in u[..Until(u, d)] ==> c in t
  {
    hide Until;
    SliceChars(u, 0, Until(u, d));
    SliceChars(u, if Until(u, d) < |u| then Until(u, d) + 1 else |u|, |u|);
  }

  /** Words are made of the characters of the string. */
  lemma {:induction false} WordChars(t: string, d: string, i: nat)
    requires i < |Words(t, d)|
    ensures forall c :: c in Words(t, d)[i] ==> c in t
    decreases |t|
  {
    hide Skip, Until, Words, AfterWord;
    WordsUnfold(t, d);
    var u := t[Skip(t, d)..];
    SliceChars(t, Skip(t, d), |t|);
    AfterChars(t, u, d);
    if i > 0 {
      WordChars(AfterWord(u, d), d, i - 1);
    }
  }

  lemma ArgumentsAreBytes(command: string, mallocs: nat)
    requires IsByteString(command)
    ensures forall i :: 0 <= i < |Arguments(command, mallocs)| ==> IsByteString(Arguments(command, mallocs)[i])
  {
    hide Words;
    var t := Cut(command, BUFFER - 1);
    assert forall c :: c in t ==> c in command && (c as int) < 256;
    var w := Words(t, DELIMITER);
    forall i | 0 <= i < |Arguments(command, mallocs)| ensures IsByteString(Arguments(command, mallocs)[i]) {
      WordChars(t, DELIMITER, i);
      assert forall j :: 0 <= j < |w[i]| ==> w[i][j] in w[i];
    }
  }

  /** The list of arguments, as process_inject_arguments needs it. */
  lemma ListIsGood(k: Machine, p: Process, nodes: seq<Argument>, w: seq<string>)
    requires Holds(nodes, w) && forall i :: 0 <= i < |w| ==> IsByteString(w[i])
    requires forall i :: 0 <= i < |nodes| ==>
      nodes[i].argument as object !in {k.mem as object, k.heap.low as object, p.allocations as object}
    ensures forall i :: 0 <= i < |nodes| ==> GoodBuffer(k, p, nodes[i].argument)
    ensures Strings(nodes) == w
  {
    hide Text;
    forall i | 0 <= i < |nodes| ensures GoodBuffer(k, p, nodes[i].argument) && Text(nodes[i].argument[..], 0) == w[i] {
      HoldsAt(nodes, w, i);
    }
  }

  /** Cutting at the larger buffer of alphaos_parse_command changes nothing. */
  lemma CutAgain(t: string)
    ensures Cut(Cut(t, BUFFER - 1), MAX_COMMAND - 1) == Cut(t, BUFFER - 1)
  {
  }

  /** system_run and the system call behind it, for a shell that has no parse under way. */
  method SystemRun(shell: Shell, k: Machine, p: Process, command: array<char>) returns (res: int, ghost ptrs: seq<uint32>)
    requires shell.Valid() && shell.tokenizer.sp == Null && Terminated(command[..], 0) && IsByteString(Text(command[..], 0))
    requires p.Inv(k) && RoomFor(k, |Arguments(Text(command[..], 0), shell.mallocs)|)
    modifies shell`mallocs, shell.tokenizer, shell.frame, k.heap.low, k.heap`live, k.mem, p.allocations, p`argc, p`argv
    ensures p.Inv(k) && p.Others(k) == old(p.Others(k)) && shell.Valid()
    ensures res == -1 <==> old(Arguments(Text(command[..], 0), shell.mallocs)) == []
    ensures res != 0 ==> p.argc == old(p.argc) && p.argv == old(p.argv)
    ensures res == 0 ==>
      var w := old(Arguments(Text(command[..], 0), shell.mallocs));
      p.argc == |w| && Placed(p.allocations[..], k.mem[..], p.argv, |w|, ptrs, w)
  {
    hide Text, Words, Placed, Holds, GoodBuffer, IsByteString, Strings;
    ghost var w := Arguments(Text(command[..], 0), shell.mallocs);
    ArgumentsAreBytes(Text(command[..], 0), shell.mallocs);
    CutAgain(Text(command[..], 0));
    ptrs := [];
    var buff := new char[BUFFER](_ => NUL);
    Strncpy(buff, command, 0, BUFFER);
    var root;
    ghost var nodes;
    root, nodes := shell.Parse(buff, BUFFER);
    assert Holds(nodes, w);
    ListIsGood(k, p, nodes, w);
    if root == null {
      return -1, ptrs;
    }
    res, ptrs := Inject(k, p, root, nodes);
  }
}
