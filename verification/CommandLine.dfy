/** Cutting a command line into words (strtok, alphaos_parse_command). */
module CommandLine {

  const NUL: char := '\0'
  const MAX_COMMAND := 1025
  const ARGUMENT_SIZE := 512

  // ---- strings in memory ----

  /** The C string that starts at position p. */
  function Text(s: seq<char>, p: nat): (t: string)
    requires p <= |s|
    ensures p + |t| <= |s|
    decreases |s| - p
  {
    if p == |s| || s[p] == NUL then [] else [s[p]] + Text(s, p + 1)
  }

  predicate Terminated(s: seq<char>, p: nat) {
    p <= |s| && p + |Text(s, p)| < |s|
  }

  lemma {:induction false} TextIs(s: seq<char>, p: nat)
    requires p <= |s|
    ensures Text(s, p) == s[p..p + |Text(s, p)|]
    ensures NUL !in Text(s, p)
    ensures p + |Text(s, p)| < |s| ==> s[p + |Text(s, p)|] == NUL
    decreases |s| - p
  {
    if p < |s| && s[p] != NUL { TextIs(s, p + 1); }
  }

  /** A string ends at the first NUL, wherever else NULs may be. */
  lemma {:induction false} TextUpTo(s: seq<char>, p: nat, n: nat)
    requires p + n < |s| && s[p + n] == NUL && forall i :: p <= i < p + n ==> s[i] != NUL
    ensures Text(s, p) == s[p..p + n]
    decreases n
  {
    if n > 0 {
      TextUpTo(s, p + 1, n - 1);
      assert s[p..p + n] == [s[p]] + s[p + 1..p + n];
    }
  }

  /** The tail of a string is the string of the tail. */
  lemma {:induction false} TextDrop(s: seq<char>, p: nat, k: nat)
    requires p <= |s| && k <= |Text(s, p)|
    ensures p + k <= |s| && Text(s, p + k) == Text(s, p)[k..]
    decreases k
  {
    if k > 0 {
      TextDrop(s, p + 1, k - 1);
      assert Text(s, p)[k..] == Text(s, p + 1)[k - 1..];
    }
  }

  lemma {:induction false} TextSame(s: seq<char>, s': seq<char>, p: nat)
    requires |s| == |s'| && p <= |s| && forall i :: p <= i < |s| ==> s'[i] == s[i]
    ensures Text(s', p) == Text(s, p)
    decreases |s| - p
  {
    if p < |s| { TextSame(s, s', p + 1); }
  }

  // ---- words ----

  /** Number of delimiters t starts with. */
  function Skip(t: string, d: string): (n: nat)
    ensures n <= |t| && (forall i :: 0 <= i < n ==> t[i] in d) && (n < |t| ==> t[n] !in d)
  {
    if t == [] || t[0] !in d then 0 else 1 + Skip(t[1..], d)
  }

  /** Number of characters before the first delimiter. */
  function Until(t: string, d: string): (n: nat)
    ensures n <= |t| && (forall i :: 0 <= i < n ==> t[i] !in d) && (n < |t| ==> t[n] in d)
  {
    if t == [] || t[0] in d then 0 else 1 + Until(t[1..], d)
  }

  /** Where the first word of t ends, its delimiter included. */
  function FirstEnd(t: string, d: string): nat {
    var k := Skip(t, d);
    var n := Until(t[k..], d);
    k + if n < |t| - k then n + 1 else n
  }

  /** What is left of t after a first word that starts at its beginning. */
  function AfterWord(t: string, d: string): string {
    var n := Until(t, d);
    if n < |t| then t[n + 1..] else []
  }

  /** The maximal delimiter-free pieces of t, in order. */
  function Words(t: string, d: string): (w: seq<string>)
    ensures forall i :: 0 <= i < |w| ==> w[i] != [] && (forall c :: c in w[i] ==> c !in d)
    decreases |t|
  {
    var u := t[Skip(t, d)..];
    if u == [] then []
    else [u[..Until(u, d)]] + Words(AfterWord(u, d), d)
  }

  lemma SkipFirst(t: string, d: string)
    requires t != [] && t[0] in d
    ensures Words(t, d) == Words(t[1..], d)
  {
    assert t[Skip(t, d)..] == t[1..][Skip(t[1..], d)..];
  }

  lemma WordsStart(t: string, d: string)
    requires t != [] && t[0] !in d
    ensures Words(t, d) == [t[..Until(t, d)]] + Words(AfterWord(t, d), d)
  {
    assert t[Skip(t, d)..] == t;
  }

  lemma {:induction false} UntilSplit(a: string, c: char, b: string, d: string)
    requires c in d
    ensures Until(a + [c] + b, d) == Until(a, d)
    decreases |a|
  {
    if a != [] && a[0] !in d {
      assert (a + [c] + b)[1..] == a[1..] + [c] + b;
      UntilSplit(a[1..], c, b, d);
    }
  }

  /** A delimiter separates: no word runs across it, and none is lost. Together with the words of a
      delimiter-free string this determines Words. */
  lemma {:induction false} WordsSplit(a: string, c: char, b: string, d: string)
    requires c in d
    ensures Words(a + [c] + b, d) == Words(a, d) + Words(b, d)
    decreases |a|
  {
    hide Words, Skip, Until;
    var t := a + [c] + b;
    if a == [] {
      SkipFirst(t, d);
      assert t[1..] == b;
      NoWords(d);
    } else if a[0] in d {
      SkipFirst(t, d);
      SkipFirst(a, d);
      assert t[1..] == a[1..] + [c] + b;
      WordsSplit(a[1..], c, b, d);
    } else {
      WordsStart(t, d);
      WordsStart(a, d);
      UntilSplit(a, c, b, d);
      var n := Until(a, d);
      assert t[..n] == a[..n];
      if n < |a| {
        assert t[n + 1..] == a[n + 1..] + [c] + b;
        WordsSplit(a[n + 1..], c, b, d);
      } else {
        assert t[n + 1..] == b;
        NoWords(d);
      }
    }
  }

  lemma NoWords(d: string)
    ensures Words([], d) == []
  {
  }

  lemma {:induction false} UntilAll(t: string, d: string)
    requires forall c :: c in t ==> c !in d
    ensures Until(t, d) == |t|
    decreases |t|
  {
    if t != [] {
      assert t[0] in t && forall c :: c in t[1..] ==> c in t;
      UntilAll(t[1..], d);
    }
  }

  lemma WordsOfOne(t: string, d: string)
    requires t != [] && forall c :: c in t ==> c !in d
    ensures Words(t, d) == [t]
  {
    hide Words;
    WordsStart(t, d);
    UntilAll(t, d);
    assert t[..|t|] == t;
    NoWords(d);
  }

  // ---- strtok ----

  /** A pointer into a character buffer. */
  datatype Cursor = Null | At(buf: array<char>, pos: nat)

  /** The string a pointer points at; none for null. */
  ghost function Rest(c: Cursor): (t: string)
    requires c.At? ==> c.pos <= c.buf.Length
    reads if c.At? then {c.buf} else {}
  {
    if c.At? then Text(c.buf[..], c.pos) else []
  }

  ghost predicate Readable(c: Cursor)
    reads if c.At? then {c.buf} else {}
  {
    c.At? ==> Terminated(c.buf[..], c.pos)
  }

  /** The global `sp` of strtok. */
  class Tokenizer {
    var sp: Cursor

    constructor ()
      ensures sp == Null
    {
      sp := Null;
    }

    /** The inner loop: is the character one of the delimiters, and which. */
    method FindDelimiter(c: char, delim: string) returns (i: nat)
      ensures i <= |delim| && (i == |delim| <==> c !in delim) && (i < |delim| ==> delim[i] == c)
    {
      i := 0;
      while i < |delim|
        invariant i <= |delim| && forall j :: 0 <= j < i ==> delim[j] != c
      {
        if c == delim[i] {
          break;
        }
        i := i + 1;
      }
    }

    /** The string the next call works on: a string passed in while sp is set is ignored. */
    function Source(str: Cursor): Cursor
      reads this
    {
      if sp == Null then str else sp
    }

    /** strtok. Repeated calls yield the words of the string one by one (CallsYieldWords); the call that
        finds none resets sp. */
    method Strtok(str: Cursor, delim: string) returns (token: Cursor)
      requires NUL !in delim && Readable(Source(str))
      modifies this, Buffers(Source(str))
      ensures var c, t := old(Source(str)), old(Rest(Source(str)));
        var k := Skip(t, delim);
        if t[k..] == [] then
          token == Null && sp == Null && (c.At? ==> c.buf[..] == old(Source(str).buf[..]))
        else
          && c.At? && token == At(c.buf, c.pos + k)
          && sp == At(c.buf, c.pos + FirstEnd(t, delim)) && token.pos < sp.pos
          && Readable(token) && Rest(token) == t[k..][..Until(t[k..], delim)]
          && Readable(sp) && Rest(sp) == AfterWord(t[k..], delim)
          && (forall i :: 0 <= i < c.buf.Length && i != token.pos + Until(t[k..], delim) ==> c.buf[i] == old(Source(str).buf[..])[i])
    {
      hide Words, Text, Skip, Until;
      if str == Null && sp == Null {
        TextNothing(delim);
        return Null;
      }
      if str.At? && sp == Null {
        sp := str;
      }
      var buf := sp.buf;
      ghost var s, from := buf[..], sp.pos;
      var p := SkipDelimiters(buf, sp.pos, delim);
      sp := At(buf, p);
      SkippedText(s, from, delim);
      if buf[p] == NUL {
        sp := Null;
        return Null;
      }
      ghost var u := Text(s, p);
      CutText(s, p, Until(u, delim));
      var q := CutToken(buf, p, delim);
      sp := At(buf, q);
      token := At(buf, p);
    }

    /** The first loop of strtok. */
    method SkipDelimiters(buf: array<char>, from: nat, delim: string) returns (p: nat)
      requires NUL !in delim && Terminated(buf[..], from)
      ensures p == from + Skip(Text(buf[..], from), delim) < buf.Length
    {
      ghost var t := Text(buf[..], from);
      ghost var k := Skip(t, delim);
      TextIs(buf[..], from);
      p := from;
      while true
        invariant from <= p <= from + k
        decreases from + k - p
      {
        assert p < from + |t| ==> buf[p] == t[p - from];
        var i := FindDelimiter(buf[p], delim);
        if i == |delim| {
          break;
        }
        p := p + 1;
      }
    }

    /** The second loop of strtok. */
    method CutToken(buf: array<char>, p: nat, delim: string) returns (q: nat)
      requires NUL !in delim && Terminated(buf[..], p)
      modifies buf
      ensures var u := old(Text(buf[..], p));
        var n := Until(u, delim);
        if n < |u| then q == p + n + 1 && buf[..] == old(buf[..])[p + n := NUL]
        else q == p + n && buf[..] == old(buf[..])
    {
      hide Text, Until;
      ghost var s := buf[..];
      ghost var u := Text(s, p);
      ghost var n := Until(u, delim);
      TextIs(s, p);
      q := p;
      while buf[q] != NUL
        invariant p <= q <= p + n && buf[..] == s
        decreases p + n - q
      {
        assert q < p + |u| && s[q] == u[q - p];
        var i := FindDelimiter(buf[q], delim);
        if i < |delim| {
          buf[q] := NUL;
          q := q + 1;
          return;
        }
        q := q + 1;
      }
    }
  }

  lemma TextNothing(delim: string)
    ensures var t: string := []; t[Skip(t, delim)..] == []
  {
  }

  /** Past the leading delimiters stands the rest of the string, or its NUL. */
  lemma SkippedText(s: seq<char>, from: nat, delim: string)
    requires Terminated(s, from)
    ensures var t := Text(s, from);
      var k := Skip(t, delim);
      && Text(s, from + k) == t[k..] && Terminated(s, from + k)
      && (s[from + k] == NUL <==> t[k..] == [])
  {
    var t := Text(s, from);
    TextDrop(s, from, Skip(t, delim));
  }

  /** Writing a NUL at place n of a string cuts it in two. */
  lemma CutText(s: seq<char>, p: nat, n: nat)
    requires Terminated(s, p) && n <= |Text(s, p)|
    ensures var u := Text(s, p);
      if n < |u| then
        && Text(s[p + n := NUL], p) == u[..n] && Terminated(s[p + n := NUL], p)
        && Text(s[p + n := NUL], p + n + 1) == u[n + 1..] && Terminated(s[p + n := NUL], p + n + 1)
      else Text(s, p) == u[..n] && Text(s, p + n) == [] && Terminated(s, p + n)
  {
    var u := Text(s, p);
    TextIs(s, p);
    TextDrop(s, p, n);
    if n < |u| {
      var s' := s[p + n := NUL];
      TextUpTo(s', p, n);
      assert s'[p..p + n] == u[..n];
      TextDrop(s, p, n + 1);
      TextSame(s[p + n + 1..], s'[p + n + 1..], 0);
      TextWindow(s, p + n + 1);
      TextWindow(s', p + n + 1);
    }
  }

  lemma {:induction false} TextWindow(s: seq<char>, p: nat)
    requires p <= |s|
    ensures Text(s, p) == Text(s[p..], 0)
  {
    TextShift(s, s[p..], p, 0);
  }

  lemma {:induction false} TextShift(s: seq<char>, r: seq<char>, p: nat, q: nat)
    requires p <= |s| && q <= |r| && s[p..] == r[q..]
    ensures Text(s, p) == Text(r, q)
    decreases |s| - p
  {
    assert |s[p..]| == |r[q..]|;
    if p < |s| {
      assert s[p] == s[p..][0] == r[q..][0] == r[q];
      assert s[p + 1..] == s[p..][1..] && r[q + 1..] == r[q..][1..];
      TextShift(s, r, p + 1, q + 1);
    }
  }

  function Buffers(c: Cursor): set<array<char>> {
    if c.At? then {c.buf} else {}
  }

  /** The string behind sp after n calls of strtok that found a word. */
  function Left(t: string, d: string, n: nat): string {
    if n == 0 then t
    else
      var before := Left(t, d, n - 1);
      AfterWord(before[Skip(before, d)..], d)
  }

  /** Call number n of strtok on t and its rests returns word number n, as long as there is one, and
      null from then on. */
  lemma {:induction false} CallsYieldWords(t: string, d: string, n: nat)
    ensures var u := Left(t, d, n);
      var v := u[Skip(u, d)..];
      if n < |Words(t, d)| then v != [] && v[..Until(v, d)] == Words(t, d)[n] else v == []
    decreases n
  {
    hide Skip, Until, AfterWord, Words;
    LeftWords(t, d, n);
    WordsStep(Left(t, d, n), d);
  }

  /** What is left holds the words not yet returned. */
  lemma {:induction false} LeftWords(t: string, d: string, n: nat)
    ensures Words(Left(t, d, n), d) == if n <= |Words(t, d)| then Words(t, d)[n..] else []
    decreases n
  {
    hide Skip, Until, AfterWord, Words;
    if n > 0 {
      LeftWords(t, d, n - 1);
      WordsStep(Left(t, d, n - 1), d);
      NothingLeft(Left(t, d, n - 1), d);
    }
  }

  lemma NothingLeft(t: string, d: string)
    ensures t[Skip(t, d)..] == [] ==> Words(AfterWord(t[Skip(t, d)..], d), d) == []
  {
  }

  lemma WordsStep(t: string, d: string)
    ensures var u := t[Skip(t, d)..];
      Words(t, d) == if u == [] then [] else [u[..Until(u, d)]] + Words(AfterWord(u, d), d)
  {
  }
}
