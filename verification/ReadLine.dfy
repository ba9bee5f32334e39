/** terminal_readline: keys become a line, edited by the backspace key. */
module ReadLine {
  import opened CommandLine

  const ENTER: char := 13 as char
  const BACKSPACE: char := 8 as char

  // ---- what typing means ----

  /** A backspace takes the last character away; on an empty line it is a character like any other. */
  function Step(line: string, c: char): string {
    if c == BACKSPACE && line != [] then line[..|line| - 1] else line + [c]
  }

  /** The line after these keys. */
  function Typed(keys: string): string {
    if keys == [] then [] else Step(Typed(keys[..|keys| - 1]), keys[|keys| - 1])
  }

  lemma TypedNext(keys: string, n: nat)
    requires n < |keys|
    ensures Typed(keys[..n + 1]) == Step(Typed(keys[..n]), keys[n])
  {
    assert keys[..n + 1][..n] == keys[..n];
  }

  lemma {:induction false} TypedPlain(keys: string)
    requires BACKSPACE !in keys
    ensures Typed(keys) == keys
  {
    if keys != [] {
      TypedPlain(keys[..|keys| - 1]);
    }
  }

  lemma {:induction false} TypedSame(a: string, a': string, b: string)
    requires Typed(a) == Typed(a')
    ensures Typed(a + b) == Typed(a' + b)
    decreases |b|
  {
    if b == [] {
      assert a + b == a && a' + b == a';
    } else {
      var last := |b| - 1;
      TypedSame(a, a', b[..last]);
      assert (a + b)[..|a| + last] == a + b[..last] && (a' + b)[..|a'| + last] == a' + b[..last];
    }
  }

  /** A key followed by a backspace goes away without a trace, exactly unless the key is itself a
      backspace that removes something other than a lone backspace character. */
  lemma BackspaceUndoes(a: string, c: char)
    ensures Typed(a + [c, BACKSPACE]) == Typed(a) <==>
      c != BACKSPACE || Typed(a) == [] || Typed(a) == [BACKSPACE]
    ensures c != BACKSPACE ==> forall b :: Typed(a + [c, BACKSPACE] + b) == Typed(a + b)
  {
    var t := a + [c, BACKSPACE];
    assert t[..|a|] == a && t[..|a| + 2] == t;
    TypedNext(t, |a|);
    TypedNext(t, |a| + 1);
    if c != BACKSPACE {
      forall b ensures Typed(t + b) == Typed(a + b) {
        TypedSame(t, a, b);
      }
    }
  }

  /** The first key on an empty line cannot be taken back if it is a backspace. */
  lemma BackspaceOnEmpty()
    ensures Typed([BACKSPACE]) == [BACKSPACE]
  {
    TypedNext([BACKSPACE], 0);
    assert [BACKSPACE][..0] == [] && [BACKSPACE][..1] == [BACKSPACE];
  }

  /** Example: the keys a, b, backspace, c spell "ac". */
  lemma LineExample()
    ensures Typed(['a', 'b', 8 as char, 'c']) == "ac"
    ensures EndsAt(['a', 'b', 8 as char, 'c', 13 as char], 100, 4)
  {
    var keys := ['a', 'b', 8 as char, 'c', 13 as char];
    assert keys[..0] == [] && keys[..4] == ['a', 'b', 8 as char, 'c'];
    TypedNext(keys, 0);
    TypedNext(keys, 1);
    TypedNext(keys, 2);
    TypedNext(keys, 3);
  }

  /** The line ends at key n: with Enter, or because the buffer is full. */
  predicate EndsAt(keys: string, max: int, n: nat) {
    n <= |keys| && (|Typed(keys[..n])| >= max - 1 || (n < |keys| && keys[n] == ENTER))
  }

  /** A key cannot put a NUL into the line. Typing adds at most one character per key. */
  lemma {:induction false} TypedNoNul(keys: string)
    requires NUL !in keys
    ensures NUL !in Typed(keys) && |Typed(keys)| <= |keys|
  {
    if keys != [] {
      TypedNoNul(keys[..|keys| - 1]);
    }
  }

  /** terminal_readline: reads up to the first end of line and leaves the line, terminated, in `out`. */
  method TerminalReadline(out: array<char>, max: int, keys: string, ghost end: nat) returns (used: nat)
    requires 1 <= out.Length && max <= out.Length && NUL !in keys
    requires EndsAt(keys, max, end)
    modifies out
    ensures EndsAt(keys, max, used) && forall n :: 0 <= n < used ==> !EndsAt(keys, max, n)
    ensures Terminated(out[..], 0) && Text(out[..], 0) == Typed(keys[..used])
    ensures max >= 1 ==> |Text(out[..], 0)| <= max - 1
  {
    hide Text, Step;
    var i := 0;
    used := 0;
    assert keys[..0] == [];
    while i < max - 1
      invariant 0 <= i < out.Length && (max >= 1 ==> i <= max - 1) && used <= end && i == |Typed(keys[..used])|
      invariant out[..i] == Typed(keys[..used])
      invariant forall n :: 0 <= n < used ==> !EndsAt(keys, max, n)
      decreases end - used
    {
      if keys[used] == ENTER {
        break;
      }
      var c := keys[used];
      TypedNext(keys, used);
      StepIs(Typed(keys[..used]), c);
      used := used + 1;
      if c == BACKSPACE && i >= 1 {
        out[i] := NUL;
        i := i - 1;
        continue;
      }
      out[i] := c;
      i := i + 1;
    }
    out[i] := NUL;
    ghost var line := Typed(keys[..used]);
    TypedNoNul(keys[..used]);
    assert out[..i] == line;
    forall j | 0 <= j < i ensures out[..][j] != NUL {
      assert out[..i][j] == line[j];
    }
    TextUpTo(out[..], 0, i);
    assert out[..][0..i] == line;
  }

  lemma StepIs(line: string, c: char)
    ensures Step(line, c) == if c == BACKSPACE && |line| >= 1 then line[..|line| - 1] else line + [c]
  {
  }
}
