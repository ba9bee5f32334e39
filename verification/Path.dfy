/** The path parser: "0:/dir/file" becomes a drive number and a linked list of names. */
module Path {
  import opened Status
  import opened CommandLine

  const MAX_PATH := 108
  const SLASH := "/"

  // ---- what a path means ----

  /** pathparser_path_valid_format, and the length check of pathparser_parse. */
  predicate ValidFormat(t: string) {
    3 <= |t| <= MAX_PATH && '0' <= t[0] <= '9' && t[1] == ':' && t[2] == '/'
  }

  /** The names a path consists of, up to the first empty one. */
  function Components(t: string): (parts: seq<string>)
    ensures forall i :: 0 <= i < |parts| ==> IsName(parts[i])
    decreases |t|
  {
    var n := Until(t, SLASH);
    if n == 0 then [] else [t[..n]] + Components(AfterWord(t, SLASH))
  }

  predicate IsName(p: string) {
    p != [] && '/' !in p
  }

  function Join(parts: seq<string>): string {
    if |parts| == 0 then []
    else if |parts| == 1 then parts[0]
    else parts[0] + SLASH + Join(parts[1..])
  }

  /** After n names, parsing stops in front of this tail. */
  predicate Stops(tail: string, n: nat) {
    tail == [] || (tail[0] == '/' && (n == 0 || |tail| == 1 || tail[1] == '/'))
  }

  lemma UntilIs(t: string, n: nat)
    requires n <= |t| && '/' !in t[..n] && (n < |t| ==> t[n] == '/')
    ensures Until(t, SLASH) == n
  {
    assert forall i :: 0 <= i < n ==> t[..n][i] == t[i];
  }

  lemma {:induction false} ComponentsOfJoin(parts: seq<string>, tail: string)
    requires (forall i :: 0 <= i < |parts| ==> IsName(parts[i])) && Stops(tail, |parts|)
    ensures Components(Join(parts) + tail) == parts
  {
    var t := Join(parts) + tail;
    if |parts| == 1 {
      assert t[..|parts[0]|] == parts[0];
      UntilIs(t, |parts[0]|);
    } else if |parts| > 1 {
      var rest := parts[1..];
      assert t == parts[0] + SLASH + (Join(rest) + tail);
      assert t[..|parts[0]|] == parts[0];
      UntilIs(t, |parts[0]|);
      assert AfterWord(t, SLASH) == Join(rest) + tail;
      ComponentsOfJoin(rest, tail);
    }
  }

  lemma {:induction false} JoinOfComponents(t: string)
    ensures var parts := Components(t);
      Join(parts) <= t && Stops(t[|Join(parts)|..], |parts|)
    decreases |t|
  {
    hide Until, Join;
    var n, u := Until(t, SLASH), AfterWord(t, SLASH);
    if n == 0 {
      NoParts();
    } else {
      JoinOfComponents(u);
      JoinCons(t[..n], Components(u));
      if n < |t| {
        assert t == t[..n] + SLASH + u;
        PrefixOfRest(t[..n] + SLASH, Join(Components(u)), u);
      } else {
        NoParts();
      }
    }
  }

  lemma NoParts()
    ensures Join([]) == [] && Components([]) == []
  {
  }

  lemma PrefixOfRest(head: string, a: string, u: string)
    requires a <= u
    ensures head + a <= head + u && (head + u)[|head + a|..] == u[|a|..]
  {
  }

  lemma JoinCons(name: string, rest: seq<string>)
    ensures Join([name] + rest) == if rest == [] then name else name + SLASH + Join(rest)
  {
    assert ([name] + rest)[1..] == rest;
  }

  /** The names of t are the one list of names that t spells out, separated by single slashes, before
      its end, a final slash or an empty name. */
  lemma ComponentsExactly(t: string, parts: seq<string>)
    ensures parts == Components(t) <==>
      && (forall i :: 0 <= i < |parts| ==> IsName(parts[i]))
      && Join(parts) <= t && Stops(t[|Join(parts)|..], |parts|)
  {
    hide Components, Join, Stops, IsName;
    JoinOfComponents(t);
    if (forall i :: 0 <= i < |parts| ==> IsName(parts[i])) && Join(parts) <= t && Stops(t[|Join(parts)|..], |parts|) {
      ComponentsOfJoin(parts, t[|Join(parts)|..]);
      assert Join(parts) + t[|Join(parts)|..] == t;
    }
  }

  function Print(drive: nat, parts: seq<string>): string
    requires drive < 10
  {
    [('0' as int + drive) as char] + ":/" + Join(parts)
  }

  function DriveOf(t: string): int
    requires t != []
  {
    t[0] as int - '0' as int
  }

  /** Well-formed: one digit, a colon, a slash, at most 108 characters. */
  lemma FormatExactly(t: string)
    ensures ValidFormat(t) <==>
      |t| <= 108 && |t| >= 3 && t[1..3] == ":/" && exists d: nat :: d < 10 && t[0] == DigitOf(d)
  {
    if |t| >= 3 && '0' <= t[0] <= '9' {
      assert t[0] == DigitOf(t[0] as int - '0' as int);
    }
  }

  function DigitOf(d: nat): char
    requires d < 10
  {
    "0123456789"[d]
  }

  /** Printing, then parsing: the drive and the names come back, with or without a final slash. */
  lemma PrintParse(drive: nat, parts: seq<string>, tail: string)
    requires drive < 10 && |Print(drive, parts) + tail| <= 108
    requires (forall i :: 0 <= i < |parts| ==> IsName(parts[i])) && Stops(tail, |parts|)
    ensures var t := Print(drive, parts) + tail;
      ValidFormat(t) && DriveOf(t) == drive && Components(t[3..]) == parts
  {
    var t := Print(drive, parts) + tail;
    assert t[3..] == Join(parts) + tail;
    ComponentsOfJoin(parts, tail);
  }

  /** Parsing, then printing: only what follows the first empty name is lost. */
  lemma ParsePrint(t: string)
    requires ValidFormat(t)
    ensures 0 <= DriveOf(t) < 10 && Print(DriveOf(t), Components(t[3..])) <= t
    ensures Stops(t[|Print(DriveOf(t), Components(t[3..]))|..], |Components(t[3..])|)
  {
    hide Components, Join, Stops, Until;
    JoinOfComponents(t[3..]);
    var p := Print(DriveOf(t), Components(t[3..]));
    assert t == t[..3] + t[3..];
    assert p == t[..3] + Join(Components(t[3..]));
    assert t[|p|..] == t[3..][|Join(Components(t[3..]))|..];
  }

  // ---- the parser ----

  class PathPart {
    const part: array<char>
    var next: PathPart?

    constructor (part: array<char>)
      ensures this.part == part && next == null
    {
      this.part, next := part, null;
    }
  }

  class PathRoot {
    var drive: int
    var first: PathPart?

    constructor (drive: int)
      ensures this.drive == drive && first == null
    {
      this.drive, first := drive, null;
    }
  }

  ghost predicate HoldsName(b: array<char>, t: string)
    reads b
  {
    b.Length == MAX_PATH && Terminated(b[..], 0) && Text(b[..], 0) == t
  }

  lemma NameHeld(b: array<char>, t: string)
    requires b.Length == MAX_PATH && |t| < MAX_PATH && NUL !in t && b[..|t|] == t && b[|t|] == NUL
    ensures HoldsName(b, t)
  {
    hide Text;
    forall j | 0 <= j < |t| ensures b[..][j] != NUL {
      assert b[..|t|][j] == t[j];
    }
    TextUpTo(b[..], 0, |t|);
    assert b[..][0..|t|] == t;
  }

  /** A list of parts, none of which occurs twice. */
  ghost predicate Chain(nodes: seq<PathPart>)
    reads nodes
  {
    && (forall i {:trigger nodes[i].next} :: 0 <= i < |nodes| ==> nodes[i].next == if i + 1 < |nodes| then nodes[i + 1] else null)
    && (forall i, j :: 0 <= i < j < |nodes| ==> nodes[i] != nodes[j] && nodes[i].part != nodes[j].part)
  }

  function First(nodes: seq<PathPart>): PathPart? {
    if nodes == [] then null else nodes[0]
  }

  function Last(nodes: seq<PathPart>): PathPart? {
    if nodes == [] then null else nodes[|nodes| - 1]
  }

  ghost function NameBuffers(nodes: seq<PathPart>): set<array<char>> {
    set i | 0 <= i < |nodes| :: nodes[i].part
  }

  ghost function Held(nodes: seq<PathPart>): set<object> {
    (set i | 0 <= i < |nodes| :: nodes[i] as object) + NameBuffers(nodes)
  }

  ghost predicate Names(nodes: seq<PathPart>, parts: seq<string>)
    reads NameBuffers(nodes)
  {
    |nodes| == |parts| && forall i :: 0 <= i < |nodes| ==> HoldsName(nodes[i].part, parts[i])
  }

  /** Linking a part behind the last one adds its name. */
  lemma NamesMore(nodes: seq<PathPart>, parts: seq<string>, part: PathPart, t: string)
    requires Names(nodes, parts) && HoldsName(part.part, t)
    ensures Names(nodes + [part], parts + [t]) && Held(nodes + [part]) == Held(nodes) + {part, part.part}
  {
    hide HoldsName;
    var more := nodes + [part];
    assert more[|nodes|] == part;
    forall i | 0 <= i < |nodes| ensures more[i] == nodes[i] && more[i] as object in Held(more) && more[i].part as object in Held(more) {
    }
  }

  lemma FirstLast(nodes: seq<PathPart>, part: PathPart?)
    ensures First([]) == null && Last([]) == null
    ensures part != null ==>
      && First(nodes + [part]) == (if nodes == [] then part else First(nodes))
      && Last(nodes + [part]) == part
  {
  }

  method Link(last: PathPart?, part: PathPart, ghost nodes: seq<PathPart>)
    requires Chain(nodes) && last == Last(nodes) && part.next == null && part !in nodes && part.part !in NameBuffers(nodes)
    modifies if last == null then {} else {last}
    ensures Chain(nodes + [part])
  {
    if last != null {
      last.next := part;
    }
    ghost var more := nodes + [part];
    forall i | 0 <= i < |nodes| ensures nodes[i].part in NameBuffers(nodes) {
    }
    forall i {:trigger more[i].next} | 0 <= i < |more|
      ensures more[i].next == if i + 1 < |more| then more[i + 1] else null
    {
      assert i + 1 < |nodes| ==> nodes[i].next == nodes[i + 1] && nodes[i] != Last(nodes);
    }
  }

  lemma Fresh(nodes: seq<PathPart>, part: PathPart, name: array<char>, live: set<object>)
    requires Held(nodes) <= live && part !in live && name !in live
    ensures part !in nodes && name !in NameBuffers(nodes)
  {
    forall i | 0 <= i < |nodes| ensures nodes[i] as object in Held(nodes) {
    }
  }

  lemma NoNames()
    ensures Chain([]) && Names([], []) && Held([]) == {}
  {
  }

  /** `parts` are the first names of t; the others, if there are more, are those of u. */
  predicate Ahead(t: string, parts: seq<string>, u: string, more: bool) {
    Components(t) == parts + if more then Components(u) else []
  }

  lemma AheadStart(t: string)
    ensures Ahead(t, [], t, true)
  {
  }

  lemma AheadStep(t: string, parts: seq<string>, u: string)
    requires Ahead(t, parts, u, true)
    ensures var n := Until(u, SLASH);
      && Ahead(t, if n == 0 then parts else parts + [u[..n]], AfterWord(u, SLASH), n > 0)
      && |parts| + (if n == 0 then 0 else 1) <= |Components(t)|
      && |AfterWord(u, SLASH)| <= |u| && (n > 0 ==> |AfterWord(u, SLASH)| < |u|)
  {
    hide Until;
    var n := Until(u, SLASH);
    var first, others := [u[..n]], Components(AfterWord(u, SLASH));
    assert n > 0 ==> Components(u) == first + others;
    assert parts + (first + others) == (parts + first) + others;
  }

  lemma AheadDone(t: string, parts: seq<string>, u: string)
    requires Ahead(t, parts, u, false)
    ensures parts == Components(t)
  {
  }

  ghost predicate Owns(root: PathRoot, nodes: seq<PathPart>)
    reads root, nodes
  {
    root.first == First(nodes) && Chain(nodes) && root as object !in Held(nodes)
  }

  lemma BuffersHeld(nodes: seq<PathPart>)
    ensures forall o: object :: o in NameBuffers(nodes) ==> o in Held(nodes)
  {
  }

  /** One part and its name are not among those before. */
  lemma HeldStep(nodes: seq<PathPart>, i: nat)
    requires Chain(nodes) && i < |nodes|
    ensures nodes[i].next == if i + 1 < |nodes| then nodes[i + 1] else null
    ensures Held(nodes[..i + 1]) == Held(nodes[..i]) + {nodes[i], nodes[i].part}
    ensures nodes[i] as object !in Held(nodes[..i]) && nodes[i].part as object !in Held(nodes[..i])
    ensures nodes[i] as object in Held(nodes) && nodes[i].part as object in Held(nodes)
  {
    var a, b := nodes[..i], nodes[..i + 1];
    assert b == a + [nodes[i]] && b[i] == nodes[i];
    forall j | 0 <= j < i ensures a[j] as object in Held(b) && a[j].part as object in Held(b) {
      assert b[j] == a[j];
    }
  }

  method Strlen(s: array<char>) returns (len: nat)
    requires Terminated(s[..], 0)
    ensures len == |Text(s[..], 0)|
  {
    hide Text;
    TextIs(s[..], 0);
    len := 0;
    while s[len] != NUL
      invariant len <= |Text(s[..], 0)|
      decreases |Text(s[..], 0)| - len
    {
      assert s[len] == s[..][len];
      len := len + 1;
    }
  }

  method Strnlen(s: array<char>, max: nat) returns (len: nat)
    requires Terminated(s[..], 0)
    ensures len == if |Text(s[..], 0)| < max then |Text(s[..], 0)| else max
  {
    hide Text;
    TextIs(s[..], 0);
    len := 0;
    while s[len] != NUL && len < max
      invariant len <= |Text(s[..], 0)| && len <= max
      decreases max - len
    {
      assert s[len] == s[..][len];
      len := len + 1;
    }
  }

  /** The heap, seen as the set of objects it has handed out. */
  class Allocator {
    const capacity: nat
    var live: set<object>

    constructor (capacity: nat)
      ensures this.capacity == capacity && live == {}
    {
      this.capacity, live := capacity, {};
    }

    ghost predicate Room(n: nat)
      reads this
    {
      |live| + n <= capacity
    }

    method Kzalloc() returns (b: array?<char>)
      modifies this`live
      ensures b == null <==> !old(Room(1))
      ensures b == null ==> live == old(live)
      ensures b != null ==> fresh(b) && b.Length == MAX_PATH && live == old(live) + {b}
      ensures b != null ==> forall i :: 0 <= i < MAX_PATH ==> b[i] == NUL
    {
      if |live| >= capacity {
        return null;
      }
      b := new char[MAX_PATH](_ => NUL);
      live := live + {b};
    }

    method Kfree(o: object)
      requires o in live
      modifies this`live
      ensures live == old(live) - {o}
    {
      live := live - {o};
    }

    /** pathparser_get_path_part: the name at pos in a page of its own, and the position behind its slash. */
    method GetPathPart(path: array<char>, pos: nat) returns (name: array?<char>, pos': nat)
      requires Terminated(path[..], pos) && |Text(path[..], pos)| < MAX_PATH && Room(1)
      modifies this`live
      ensures Terminated(path[..], pos')
      ensures var t := old(Text(path[..], pos)); var n := Until(t, SLASH);
        && Text(path[..], pos') == AfterWord(t, SLASH)
        && (name == null <==> n == 0)
        && (name == null ==> live == old(live))
        && (name != null ==> fresh(name) && live == old(live) + {name} && HoldsName(name, t[..n]))
    {
      hide Text;
      ghost var c := path[..];
      ghost var t := Text(c, pos);
      TextIs(c, pos);
      var result := Kzalloc();
      var i := 0;
      while path[pos + i] != '/' && path[pos + i] != NUL
        invariant live == old(live) + {result}
        invariant i <= |t| && '/' !in t[..i]
        invariant result != null && fresh(result) && result.Length == MAX_PATH && path[..] == c
        invariant result[..i] == t[..i] && forall j :: i <= j < MAX_PATH ==> result[j] == NUL
        decreases |t| - i
      {
        assert path[pos + i] == t[i];
        assert t[..i + 1] == t[..i] + [t[i]];
        result[i] := path[pos + i];
        i := i + 1;
      }
      TextDrop(c, pos, i);
      UntilIs(t, i);
      pos' := pos + i;
      if path[pos'] == '/' {
        TextDrop(c, pos, i + 1);
        pos' := pos' + 1;
      }
      if i == 0 {
        Kfree(result);
        return null, pos';
      }
      NameHeld(result, t[..i]);
      return result, pos';
    }

    /** pathparser_parse_path_part: the next name, linked behind the last part. */
    method ParsePathPart(last: PathPart?, path: array<char>, pos: nat, ghost nodes: seq<PathPart>, ghost parts: seq<string>)
      returns (part: PathPart?, pos': nat, ghost more: seq<PathPart>, ghost names: seq<string>)
      requires Terminated(path[..], pos) && |Text(path[..], pos)| < MAX_PATH
      requires Room(if Until(Text(path[..], pos), SLASH) == 0 then 1 else 2)
      requires Chain(nodes) && last == Last(nodes) && Names(nodes, parts) && |nodes| == |parts| && Held(nodes) <= live
      modifies this`live, if last == null then {} else {last}
      ensures Terminated(path[..], pos') && Chain(more) && Names(more, names) && |names| == |more|
      ensures var t := old(Text(path[..], pos)); var n := Until(t, SLASH);
        && Text(path[..], pos') == AfterWord(t, SLASH)
        && (part == null <==> n == 0)
        && (part == null ==> more == nodes && names == parts && live == old(live))
        && (part != null ==>
          && more == nodes + [part] && names == parts + [t[..n]] && Held(more) == Held(nodes) + {part, part.part}
          && fresh(part) && fresh(part.part)
          && live == old(live) + {part, part.part} && |live| == |old(live)| + 2)
    {
      hide Text, AfterWord, HoldsName, Chain, Names, Until, NameBuffers;
      ghost var t := Text(path[..], pos);
      var name;
      name, pos' := GetPathPart(path, pos);
      if name == null {
        return null, pos', nodes, parts;
      }
      part := NewPart(last, name, nodes, parts, t[..Until(t, SLASH)]);
      return part, pos', nodes + [part], parts + [t[..Until(t, SLASH)]];
    }

    method NewPart(last: PathPart?, name: array<char>, ghost nodes: seq<PathPart>, ghost parts: seq<string>, ghost t: string)
      returns (part: PathPart)
      requires Chain(nodes) && last == Last(nodes) && Names(nodes, parts) && Held(nodes) <= live - {name}
      requires HoldsName(name, t)
      modifies this`live, if last == null then {} else {last}
      ensures fresh(part) && part.part == name
      ensures live == old(live) + {part} && |live| == |old(live)| + 1
      ensures Chain(nodes + [part]) && Names(nodes + [part], parts + [t]) && Held(nodes + [part]) == Held(nodes) + {part, name}
    {
      hide HoldsName, Chain, Names, NameBuffers;
      part := new PathPart(name);
      live := live + {part};
      Fresh(nodes, part, name, old(live) - {name});
      Link(last, part, nodes);
      NamesMore(nodes, parts, part, t);
    }

    /** The first part and the loop of pathparser_parse. */
    method ParseParts(path: array<char>, pos: nat) returns (first: PathPart?, ghost nodes: seq<PathPart>)
      requires Terminated(path[..], pos) && |Text(path[..], pos)| < MAX_PATH
      requires Room(1 + 2 * |Components(Text(path[..], pos))|)
      modifies this`live
      ensures Chain(nodes) && first == First(nodes) && Names(nodes, Components(old(Text(path[..], pos))))
      ensures live == old(live) + Held(nodes)
      ensures forall o :: o in Held(nodes) ==> fresh(o)
    {
      hide Text, HoldsName, AfterWord, Names, Chain, Held, NameBuffers, Components, Until, Ahead, First, Last;
      ghost var t, parts := Text(path[..], pos), [];
      NoNames();
      AheadStart(t);
      AheadStep(t, [], t);
      FirstLast([], null);
      var p;
      first, p, nodes, parts := ParsePathPart(null, path, pos, [], []);
      FirstLast([], first);
      if first == null {
        AheadDone(t, parts, AfterWord(t, SLASH));
      } else {
        nodes := MoreParts(first, path, p, t, nodes, parts);
      }
    }

    method MoreParts(first: PathPart, path: array<char>, pos: nat, ghost t: string, ghost start: seq<PathPart>, ghost names: seq<string>)
      returns (ghost nodes: seq<PathPart>)
      requires Terminated(path[..], pos) && |Text(path[..], pos)| < MAX_PATH
      requires Chain(start) && first == First(start) == Last(start) && Names(start, names) && |start| == |names| == 1
      requires Ahead(t, names, Text(path[..], pos), true) && Held(start) <= live
      requires |live| + 1 + 2 * |Components(t)| <= capacity + 2
      modifies this`live, first
      ensures Chain(nodes) && first == First(nodes) && Names(nodes, Components(t))
      ensures live == old(live) + Held(nodes) && Held(start) <= Held(nodes)
      ensures forall o :: o in Held(nodes) ==> o in Held(start) || fresh(o)
    {
      hide Text, HoldsName, AfterWord, Names, Chain, Held, NameBuffers, Components, Until, Ahead, First, Last;
      ghost var u, parts := Text(path[..], pos), names;
      nodes := start;
      var part, p := first, pos;
      while part != null
        invariant Terminated(path[..], p) && Text(path[..], p) == u && |u| < MAX_PATH
        invariant part != null ==> (part == first || fresh(part)) && part == Last(nodes)
        invariant Chain(nodes) && nodes != [] && first == First(nodes) && Names(nodes, parts)
        invariant Ahead(t, parts, u, part != null)
        invariant live == old(live) + Held(nodes) && |live| == |old(live)| + 2 * |nodes| - 2 && |parts| == |nodes|
        invariant Held(start) <= Held(nodes) && forall o :: o in Held(nodes) ==> o in Held(start) || fresh(o)
        decreases part != null, |u|
      {
        AheadStep(t, parts, u);
        ghost var before := nodes;
        part, p, nodes, parts := ParsePathPart(part, path, p, nodes, parts);
        FirstLast(before, part);
        u := AfterWord(u, SLASH);
      }
      AheadDone(t, parts, u);
    }

    /** pathparser_get_drive_by_path */
    method GetDrive(path: array<char>) returns (drive: int)
      requires Terminated(path[..], 0)
      ensures var t := Text(path[..], 0);
        drive == if 3 <= |t| && '0' <= t[0] <= '9' && t[1] == ':' && t[2] == '/' then DriveOf(t) else -4
    {
      hide Text;
      TextIs(path[..], 0);
      var len := Strnlen(path, MAX_PATH);
      if len >= 3 && '0' <= path[0] <= '9' && path[1] == ':' && path[2] == '/' {
        return path[0] as int - '0' as int;
      }
      return -EBADPATH;
    }

    /** pathparser_parse: null exactly for a badly formed or too long path, otherwise the drive and the
        components before the first empty one; live grows by exactly what the result holds. */
    method Parse(path: array<char>) returns (root: PathRoot?, ghost nodes: seq<PathPart>)
      requires Terminated(path[..], 0)
      requires ValidFormat(Text(path[..], 0)) ==> Room(2 + 2 * |Components(Text(path[..], 0)[3..])|)
      modifies this`live
      ensures var t := old(Text(path[..], 0));
        && (root == null <==> !ValidFormat(t))
        && (root == null ==> nodes == [] && live == old(live))
        && (root != null ==>
          && fresh(root) && root.drive == DriveOf(t)
          && Owns(root, nodes) && Names(nodes, Components(t[3..]))
          && live == old(live) + {root} + Held(nodes)
          && forall o :: o in Held(nodes) ==> fresh(o))
    {
      hide Text, HoldsName, Names, Chain, Held, Components;
      root, nodes := null, [];
      var len := Strlen(path);
      if len > MAX_PATH {
        return;
      }
      var drive := GetDrive(path);
      if drive < 0 {
        return;
      }
      ghost var c := path[..];
      TextDrop(c, 0, 3);
      root := new PathRoot(drive);
      live := live + {root};
      assert path[..] == c;
      var first;
      first, nodes := ParseParts(path, 3);
      BuffersHeld(nodes);
      root.first := first;
    }

    /** pathparser_free: everything the root holds, and nothing else, goes back to the heap. */
    method Free(root: PathRoot, ghost nodes: seq<PathPart>)
      requires Owns(root, nodes) && root in live && Held(nodes) <= live
      modifies this`live
      ensures live == old(live) - {root} - Held(nodes)
    {
      hide NameBuffers;
      var part := root.first;
      ghost var i := 0;
      NoNames();
      assert nodes[..0] == [];
      while part != null
        invariant 0 <= i <= |nodes| && part == if i < |nodes| then nodes[i] else null
        invariant live == old(live) - Held(nodes[..i])
        decreases |nodes| - i
      {
        HeldStep(nodes, i);
        var next := part.next;
        Kfree(part.part);
        Kfree(part);
        part := next;
        i := i + 1;
      }
      assert nodes[..i] == nodes;
      Kfree(root);
    }

    /** Parsing and freeing leave the heap as it was. */
    method ParseThenFree(path: array<char>)
      requires Terminated(path[..], 0)
      requires ValidFormat(Text(path[..], 0)) ==> Room(2 + 2 * |Components(Text(path[..], 0)[3..])|)
      modifies this`live
      ensures live == old(live)
    {
      hide Text, HoldsName, Names, Chain, Held, Components;
      var root;
      ghost var nodes;
      root, nodes := Parse(path);
      if root != null {
        Free(root, nodes);
      }
    }
  }
}
