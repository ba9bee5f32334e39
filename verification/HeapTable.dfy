/** The byte-per-block allocation table of the heap, as a mathematical object:
    what a table means (a map from first block to run length) and what marking
    and clearing a run do to that meaning. */
module HeapTable {
  import opened Status

  type Entry = bv8
  const FREE: Entry := 0x00
  const TAKEN: Entry := 0x01
  const HAS_NEXT: Entry := 0x80
  const IS_FIRST: Entry := 0x40

  /** First block of a run -> number of blocks the run was asked for. */
  type Runs = map<nat, nat>

  predicate IsFree(e: Entry) {
    e & 0x0f == FREE
  }

  /** Only the low four bits decide, whatever the flags. */
  lemma FreeIs(e: Entry)
    ensures IsFree(e) <==> e << 4 == 0
  {
  }

  /** The byte of block k of a run of n blocks. */
  function RunByte(k: int, n: int): Entry {
    TAKEN | (if k == 0 then IS_FIRST else 0) | (if k < n - 1 then HAS_NEXT else 0)
  }

  lemma RunByteFlags(k: int, n: int)
    ensures !IsFree(RunByte(k, n)) && RunByte(k, n) != FREE
    ensures RunByte(k, n) & IS_FIRST != 0 <==> k == 0
    ensures RunByte(k, n) & HAS_NEXT != 0 <==> k < n - 1
  {
  }

  /** The bytes of a run: a lone block, and the first, inner and last blocks of a longer one. */
  lemma RunByteIs(k: nat, n: nat)
    requires k < n
    ensures RunByte(k, n) ==
      if n == 1 then 0x41 else if k == 0 then 0xC1 else if k == n - 1 then 0x01 else 0x81
  {
  }

  ghost predicate InRun(m: Runs, s: nat, i: int) {
    s in m && s <= i < s + m[s]
  }

  ghost predicate Taken(m: Runs, i: int) {
    exists s :: InRun(m, s, i)
  }

  ghost predicate Disjoint(m: Runs) {
    forall s, r :: s in m && r in m && s < r ==> s + m[s] <= r
  }

  /** Every run is nonempty and starts inside a table of `total` blocks. */
  ghost predicate Starts(m: Runs, total: nat) {
    forall s :: s in m ==> s < total && m[s] >= 1
  }

  /** Every run also ends inside the table. */
  ghost predicate InPool(m: Runs, total: nat) {
    forall s :: s in m ==> s + m[s] <= total
  }

  /** The table t is exactly the flag encoding of the runs m. */
  ghost predicate Encodes(t: seq<Entry>, m: Runs) {
    && Starts(m, |t|)
    && Disjoint(m)
    && (forall s, i :: InRun(m, s, i) && i < |t| ==> t[i] == RunByte(i - s, m[s]))
    && (forall i :: 0 <= i < |t| && !Taken(m, i) ==> t[i] == FREE)
  }

  predicate FreeRange(t: seq<Entry>, s: int, e: int) {
    0 <= s <= e <= |t| && forall i :: s <= i < e ==> IsFree(t[i])
  }

  /** Blocks [s, s+n) lie in the table and are all free. */
  predicate Fits(t: seq<Entry>, s: int, n: int) {
    FreeRange(t, s, s + n)
  }

  /** t after bytes [s, s+n) became a marked run; bytes past the end of t are dropped. */
  function Marked(t: seq<Entry>, s: int, n: int): (r: seq<Entry>)
    ensures |r| == |t|
    ensures n <= 0 ==> r == t
  {
    seq(|t|, i requires 0 <= i < |t| => if s <= i < s + n then RunByte(i - s, n) else t[i])
  }

  function Cleared(t: seq<Entry>, s: int, n: int): (r: seq<Entry>)
    ensures |r| == |t|
  {
    seq(|t|, i requires 0 <= i < |t| => if s <= i < s + n then FREE else t[i])
  }

  /** A cleared table holds no run. */
  lemma Blank(bytes: seq<Entry>, base: nat, total: nat)
    requires base + total <= |bytes|
    ensures Encodes(Cleared(bytes, base, total)[base..base + total], map[])
  {
  }

  /** A block is free in the table exactly when no run holds it. */
  lemma FreeIsUntaken(t: seq<Entry>, m: Runs, i: int)
    requires Encodes(t, m) && 0 <= i < |t|
    ensures IsFree(t[i]) <==> !Taken(m, i)
    ensures IsFree(t[i]) ==> t[i] == FREE
  {
    if Taken(m, i) {
      var s :| InRun(m, s, i);
      RunByteFlags(i - s, m[s]);
    }
  }

  lemma LiveNotFree(t: seq<Entry>, m: Runs, s: nat)
    requires Encodes(t, m) && s in m
    ensures s < |t| && !IsFree(t[s])
  {
    assert InRun(m, s, s);
    FreeIsUntaken(t, m, s);
  }

  /** Marking free blocks adds one run, also when the run sticks out past the table. */
  lemma AddRun(t: seq<Entry>, m: Runs, s: nat, n: nat)
    requires Encodes(t, m) && n >= 1 && s < |t|
    requires FreeRange(t, s, if s + n <= |t| then s + n else |t|)
    ensures s !in m
    ensures Encodes(Marked(t, s, n), m[s := n])
  {
    var m', t' := m[s := n], Marked(t, s, n);
    forall i | s <= i < s + n && i < |t| ensures !Taken(m, i) {
      FreeIsUntaken(t, m, i);
    }
    assert s in m ==> InRun(m, s, s);
    assert Disjoint(m') by {
      forall a, b | a in m' && b in m' && a < b ensures a + m'[a] <= b {
        if b == s { assert InRun(m, a, s) <==> a + m[a] > s; }
        if a == s { assert InRun(m, b, b); }
      }
    }
    forall a, i | InRun(m', a, i) && i < |t| ensures t'[i] == RunByte(i - a, m'[a]) {
      if a != s {
        assert InRun(m, a, i);
        assert !(s <= i < s + n);
      }
    }
    forall i | 0 <= i < |t| && !Taken(m', i) ensures t'[i] == FREE {
      if s <= i < s + n { assert InRun(m', s, i); }
      forall a | InRun(m, a, i) ensures false { assert InRun(m', a, i); }
    }
  }

  /** Clearing the bytes of a run removes exactly that run. */
  lemma DropRun(t: seq<Entry>, m: Runs, s: nat)
    requires Encodes(t, m) && s in m
    ensures Encodes(Cleared(t, s, m[s]), m - {s})
  {
    var m', t' := m - {s}, Cleared(t, s, m[s]);
    forall a, i | InRun(m', a, i) && i < |t| ensures t'[i] == RunByte(i - a, m'[a]) {
      assert InRun(m, a, i);
      assert !(s <= i < s + m[s]);
    }
    forall i | 0 <= i < |t| && !Taken(m', i) ensures t'[i] == FREE {
      if !(s <= i < s + m[s]) {
        forall a | InRun(m, a, i) ensures false { assert InRun(m', a, i); }
      }
    }
  }

  /** The encoding determines the bytes ... */
  lemma EncodingUnique(t: seq<Entry>, t': seq<Entry>, m: Runs)
    requires Encodes(t, m) && Encodes(t', m) && |t| == |t'|
    ensures t == t'
  {
    forall i | 0 <= i < |t| ensures t[i] == t'[i] {
      if Taken(m, i) {
        var s :| InRun(m, s, i);
        assert t[i] == RunByte(i - s, m[s]) == t'[i];
      }
    }
  }

  lemma SameRuns(t: seq<Entry>, m: Runs, m': Runs, s: nat)
    requires Encodes(t, m) && Encodes(t, m') && InPool(m, |t|) && InPool(m', |t|)
    requires s in m
    ensures s in m' && m'[s] == m[s]
  {
    assert InRun(m, s, s);
    RunByteFlags(0, m[s]);
    FreeIsUntaken(t, m', s);
    FreeIsUntaken(t, m, s);
    var r :| InRun(m', r, s);
    RunByteFlags(s - r, m'[r]);
    assert r == s;
    var k := if m[s] < m'[s] then m[s] - 1 else m'[s] - 1;
    assert InRun(m, s, s + k) && InRun(m', s, s + k);
    RunByteFlags(k, m[s]);
    RunByteFlags(k, m'[s]);
  }

  /** ... and the bytes determine the runs: the flags lose nothing. */
  lemma DecodingUnique(t: seq<Entry>, m: Runs, m': Runs)
    requires Encodes(t, m) && Encodes(t, m') && InPool(m, |t|) && InPool(m', |t|)
    ensures m == m'
  {
    forall s | s in m ensures s in m' && m'[s] == m[s] { SameRuns(t, m, m', s); }
    forall s | s in m' ensures s in m && m'[s] == m[s] { SameRuns(t, m', m, s); }
  }

  /** What clearing does to memory: zero bytes from i while HAS_NEXT was set, stopping at `limit`. */
  function ClearChain(low: seq<Entry>, i: nat, limit: nat): (r: seq<Entry>)
    requires limit <= |low|
    ensures |r| == |low|
    decreases limit - i
  {
    if i >= limit then low
    else if low[i] & HAS_NEXT == 0 then low[i := FREE]
    else ClearChain(low[i := FREE], i + 1, limit)
  }

  /** On a run's own bytes the chain of HAS_NEXT flags stops exactly at the end of the run. */
  lemma {:induction false} ClearChainIsRun(low: seq<Entry>, i: nat, limit: nat, k: nat, n: nat)
    requires limit <= |low| && k < n
    requires forall j :: i <= j < i + (n - k) && j < limit ==> low[j] == RunByte(j - i + k, n)
    ensures ClearChain(low, i, limit)
         == seq(|low|, j requires 0 <= j < |low| => if i <= j < i + (n - k) && j < limit then FREE else low[j])
    decreases n - k
  {
    if i < limit {
      RunByteFlags(k, n);
      assert low[i] == RunByte(i - i + k, n);
      if k < n - 1 {
        ClearChainIsRun(low[i := FREE], i + 1, limit, k + 1, n);
      }
    }
  }

  /** Where the chain goes depends only on HAS_NEXT bits: it touches [i, e) and nothing else. */
  lemma {:induction false} ClearChainFrame(low: seq<Entry>, i: nat, limit: nat, stop: nat)
    requires i <= stop < limit <= |low| && low[stop] & HAS_NEXT == 0
    ensures forall j :: 0 <= j < |low| && (j < i || j > stop) ==> ClearChain(low, i, limit)[j] == low[j]
    decreases stop - i
  {
    if low[i] & HAS_NEXT != 0 { ClearChainFrame(low[i := FREE], i + 1, limit, stop); }
  }

  lemma {:induction false} ClearChainReaches(low: seq<Entry>, i: nat, limit: nat, target: nat)
    requires i <= target < limit <= |low|
    requires forall j :: i <= j < target ==> low[j] & HAS_NEXT != 0
    ensures ClearChain(low, i, limit)[target] == FREE
    decreases target - i
  {
    if i < target {
      ClearChainReaches(low[i := FREE], i + 1, limit, target);
    } else if low[i] & HAS_NEXT != 0 {
      ClearChainBefore(low[i := FREE], i + 1, limit);
    }
  }

  lemma {:induction false} ClearChainBefore(low: seq<Entry>, i: nat, limit: nat)
    requires limit <= |low|
    ensures forall j :: 0 <= j < |low| && j < i ==> ClearChain(low, i, limit)[j] == low[j]
    decreases limit - i
  {
    if i < limit && low[i] & HAS_NEXT != 0 { ClearChainBefore(low[i := FREE], i + 1, limit); }
  }

  /** Number of free blocks among the first k. */
  function FreeUpTo(t: seq<Entry>, k: nat): nat
    requires k <= |t|
  {
    if k == 0 then 0 else FreeUpTo(t, k - 1) + (if IsFree(t[k - 1]) then 1 else 0)
  }

  function FreeCount(t: seq<Entry>): nat {
    FreeUpTo(t, |t|)
  }

  /** Making the free blocks of [s, e) taken removes e - s from the count. */
  lemma {:induction false} CountDrop(t: seq<Entry>, t': seq<Entry>, s: nat, e: nat, k: nat)
    requires |t| == |t'| && s <= e <= |t| && k <= |t|
    requires forall i :: s <= i < e ==> IsFree(t[i]) && !IsFree(t'[i])
    requires forall i :: 0 <= i < |t| && !(s <= i < e) ==> IsFree(t[i]) == IsFree(t'[i])
    ensures FreeUpTo(t, k) == FreeUpTo(t', k) + (if k <= s then 0 else if k <= e then k - s else e - s)
  {
    if k > 0 { CountDrop(t, t', s, e, k - 1); }
  }

  lemma {:induction false} CountPositive(t: seq<Entry>, k: nat)
    requires k <= |t|
    ensures FreeUpTo(t, k) > 0 <==> exists i :: 0 <= i < k && IsFree(t[i])
  {
    if k > 0 {
      CountPositive(t, k - 1);
      if IsFree(t[k - 1]) { assert 0 <= k - 1 < k && IsFree(t[k - 1]); }
    }
  }

  lemma {:induction false} AllFreeCount(t: seq<Entry>, k: nat)
    requires k <= |t| && forall i :: 0 <= i < k ==> IsFree(t[i])
    ensures FreeUpTo(t, k) == k
  {
    if k > 0 { AllFreeCount(t, k - 1); }
  }

  /** Total number of blocks asked for by the live runs. */
  ghost function Blocks(m: Runs): nat
    decreases |m|
  {
    if m == map[] then 0
    else var s: nat :| s in m; m[s] + Blocks(m - {s})
  }

  /** At all times, free blocks and the blocks of live runs add up to the table. */
  lemma {:induction false} Conservation(t: seq<Entry>, m: Runs)
    requires Encodes(t, m) && InPool(m, |t|)
    ensures FreeCount(t) + Blocks(m) == |t|
    decreases |m|
  {
    if m == map[] {
      forall i | 0 <= i < |t| ensures IsFree(t[i]) { FreeIsUntaken(t, m, i); }
      AllFreeCount(t, |t|);
    } else {
      var s: nat :| s in m && Blocks(m) == m[s] + Blocks(m - {s});
      var t' := Cleared(t, s, m[s]);
      DropRun(t, m, s);
      Conservation(t', m - {s});
      forall i | s <= i < s + m[s] ensures !IsFree(t[i]) { assert InRun(m, s, i); FreeIsUntaken(t, m, i); }
      CountDrop(t', t, s, s + m[s], |t|);
    }
  }

  /** The answer of the scan for n free blocks, as the code computes it:
      the least fitting start; failing that, the start of the free blocks at the
      end of the table, however few; and -ENOMEM only if the last block is taken. */
  ghost predicate ScanAnswer(t: seq<Entry>, n: nat, r: int) {
    if n >= 1 && exists s :: Fits(t, s, n) then
      Fits(t, r, n) && forall s :: 0 <= s < r ==> !Fits(t, s, n)
    else if |t| > 0 && IsFree(t[|t| - 1]) then
      FreeRange(t, r, |t|) && r < |t| && (r == 0 || !IsFree(t[r - 1]))
    else r == -ENOMEM
  }

  lemma ScanAnswerUnique(t: seq<Entry>, n: nat, r: int, r': int)
    requires ScanAnswer(t, n, r) && ScanAnswer(t, n, r')
    ensures r == r'
  {
    if n >= 1 && exists s :: Fits(t, s, n) {
      assert !(r < r') && !(r' < r);
    }
  }

  /** First fit holds for a request of n >= 1 blocks iff the request fits or the last block is
      taken; otherwise the scan hands out a run that leaves the table. */
  lemma FirstFitExactly(t: seq<Entry>, n: nat, r: int)
    requires n >= 1 && ScanAnswer(t, n, r)
    ensures (exists s :: Fits(t, s, n)) || |t| == 0 || !IsFree(t[|t| - 1])
       <==> (r >= 0 ==> r + n <= |t|)
    ensures (exists s :: Fits(t, s, n)) ==> Fits(t, r, n) && forall s :: 0 <= s < r ==> !Fits(t, s, n)
    ensures r < 0 ==> r == -ENOMEM && !exists s :: Fits(t, s, n)
  {
    assert FreeRange(t, r, |t|) && 0 <= r && r + n <= |t| ==> Fits(t, r, n);
  }

  /** Whatever the scan answers, the blocks it points at are free up to the end of the table. */
  lemma ScanFree(t: seq<Entry>, n: nat, r: int)
    requires ScanAnswer(t, n, r)
    ensures r < 0 ==> r == -ENOMEM
    ensures r >= 0 ==> r < |t| && IsFree(t[r])
    ensures r >= 0 ==> FreeRange(t, r, if r + n <= |t| then r + n else |t|)
  {
  }

  lemma MarkedWindow(low: seq<Entry>, base: nat, total: nat, s: nat, n: nat)
    requires base + total <= |low|
    ensures Marked(low, base + s, n)[base..base + total] == Marked(low[base..base + total], s, n)
  {
  }

  /** The bytes of a live run, seen in the memory around the table. */
  lemma RunBytes(low: seq<Entry>, base: nat, total: nat, m: Runs, s: nat)
    requires base + total <= |low| && Encodes(low[base..base + total], m) && s in m
    ensures s < total && m[s] >= 1
    ensures forall j :: base + s <= j < base + s + m[s] && j < base + total ==> low[j] == RunByte(j - (base + s), m[s])
  {
    var t := low[base..base + total];
    forall j | base + s <= j < base + s + m[s] && j < base + total ensures low[j] == RunByte(j - (base + s), m[s]) {
      assert InRun(m, s, j - base) && low[j] == t[j - base];
    }
  }

  /** Bytes outside the table are the same. */
  ghost predicate SameAround(low: seq<Entry>, low': seq<Entry>, base: nat, total: nat) {
    |low| == |low'| && forall j :: 0 <= j < |low| && !(base <= j < base + total) ==> low'[j] == low[j]
  }

  lemma AroundTrans(low: seq<Entry>, low1: seq<Entry>, low2: seq<Entry>, base: nat, total: nat)
    requires SameAround(low, low1, base, total) && SameAround(low1, low2, base, total)
    ensures SameAround(low, low2, base, total)
  {
  }

  /** Bytes before the table are the same. */
  ghost predicate SameBelow(low: seq<Entry>, low': seq<Entry>, base: nat) {
    |low| == |low'| && forall j :: 0 <= j < |low| && j < base ==> low'[j] == low[j]
  }

  lemma MarkedBelow(low: seq<Entry>, base: nat, b: nat, n: nat)
    ensures SameBelow(low, Marked(low, base + b, n), base)
  {
  }

  lemma AroundIsBelow(low: seq<Entry>, low1: seq<Entry>, low2: seq<Entry>, base: nat, total: nat)
    requires SameBelow(low, low1, base) && SameAround(low1, low2, base, total)
    ensures SameBelow(low, low2, base)
  {
  }

  /** Following HAS_NEXT from the first block of a live run removes exactly that run. */
  lemma FreeLive(low: seq<Entry>, base: nat, total: nat, m: Runs, s: nat)
    requires base + total <= |low| && Encodes(low[base..base + total], m) && s in m
    ensures s < total && !IsFree(low[base..base + total][s])
    ensures ClearChain(low, base + s, base + total)[base..base + total] == Cleared(low[base..base + total], s, m[s])
    ensures Encodes(Cleared(low[base..base + total], s, m[s]), m - {s})
    ensures SameAround(low, ClearChain(low, base + s, base + total), base, total)
  {
    LiveNotFree(low[base..base + total], m, s);
    RunBytes(low, base, total, m, s);
    ClearedWindow(low, base, total, s, m[s]);
    DropRun(low[base..base + total], m, s);
  }

  /** A walk that starts at `start` runs on into the table at `base`. */
  ghost predicate Reaches(low: seq<Entry>, start: nat, base: nat) {
    forall j :: start <= j < base && j < |low| ==> low[j] & HAS_NEXT != 0
  }

  /** The walk sees only what lies ahead of it. */
  lemma {:induction false} ClearChainAhead(low: seq<Entry>, low': seq<Entry>, i: nat, limit: nat)
    requires limit <= |low| == |low'| && forall j :: i <= j < |low| ==> low'[j] == low[j]
    ensures forall j :: i <= j < |low| ==> ClearChain(low', i, limit)[j] == ClearChain(low, i, limit)[j]
    decreases limit - i
  {
    if i < limit && low[i] & HAS_NEXT != 0 {
      ClearChainAhead(low[i := FREE], low'[i := FREE], i + 1, limit);
      ClearChainBefore(low[i := FREE], i + 1, limit);
      ClearChainBefore(low'[i := FREE], i + 1, limit);
    }
  }

  /** A walk that reaches the table goes through it like one that starts at its first byte, and leaves
      free bytes behind. */
  lemma {:induction false} ClearChainRunsOn(low: seq<Entry>, start: nat, base: nat, limit: nat)
    requires start <= base <= limit <= |low| && Reaches(low, start, base)
    ensures forall j :: base <= j < |low| ==> ClearChain(low, start, limit)[j] == ClearChain(low, base, limit)[j]
    ensures forall j :: start <= j < base ==> ClearChain(low, start, limit)[j] == FREE
    decreases base - start
  {
    if start < base {
      var low' := low[start := FREE];
      ClearChainRunsOn(low', start + 1, base, limit);
      ClearChainBefore(low', start + 1, limit);
      ClearChainAhead(low, low', base, limit);
    }
  }

  /** Where no run starts at block 0, block 0 is free. */
  lemma FirstBlockFree(t: seq<Entry>, m: Runs)
    requires Encodes(t, m) && |t| > 0
    ensures 0 !in m <==> t[0] == FREE
  {
    FreeIsUntaken(t, m, 0);
    if 0 in m { LiveNotFree(t, m, 0); }
    assert forall s :: InRun(m, s, 0) ==> s == 0;
  }

  /** A walk from below the table frees the run at block 0, if it gets that far and there is one, and
      nothing else; it never gets that far a second time. */
  lemma WalkFromBelow(low: seq<Entry>, start: nat, base: nat, total: nat, m: Runs)
    requires start < base && base + total <= |low| && Encodes(low[base..base + total], m)
    ensures var after := ClearChain(low, start, base + total);
      && Encodes(after[base..base + total], if Reaches(low, start, base) then m - {0} else m)
      && (!Reaches(low, start, base) ==> after[base..base + total] == low[base..base + total])
      && !Reaches(after, start, base)
  {
    hide Encodes, ClearChain;
    var t, after := low[base..base + total], ClearChain(low, start, base + total);
    if Reaches(low, start, base) {
      ClearChainRunsOn(low, start, base, base + total);
      assert after[start] == FREE;
      var tableWalk := ClearChain(low, base, base + total);
      assert after[base..base + total] == tableWalk[base..base + total];
      if 0 in m {
        FreeLive(low, base, total, m, 0);
      } else if total > 0 {
        FirstBlockFree(t, m);
        ClearFreeByte(low, base, base + total);
      }
      assert 0 !in m ==> m - {0} == m;
    } else {
      StopsBefore(low, start, base, base + total);
      assert after[base..base + total] == t;
    }
  }

  /** A walk that does not reach the table leaves it alone, and keeps a byte that stops it. */
  lemma {:induction false} StopsBefore(low: seq<Entry>, start: nat, base: nat, limit: nat)
    requires start < base <= limit <= |low| && !Reaches(low, start, base)
    ensures forall j :: base <= j < |low| ==> ClearChain(low, start, limit)[j] == low[j]
    ensures ClearChain(low, start, limit)[start] == FREE
    decreases base - start
  {
    if low[start] & HAS_NEXT != 0 {
      var low' := low[start := FREE];
      var j :| start <= j < base && low[j] & HAS_NEXT == 0;
      assert low'[j] & HAS_NEXT == 0;
      StopsBefore(low', start + 1, base, limit);
      ClearChainBefore(low', start + 1, limit);
    }
  }

  lemma ClearFreeByte(low: seq<Entry>, i: nat, limit: nat)
    requires i < limit <= |low| && low[i] == FREE
    ensures ClearChain(low, i, limit) == low
  {
    assert low[i := FREE] == low;
  }

  lemma ClearedWindow(low: seq<Entry>, base: nat, total: nat, s: nat, n: nat)
    requires base + total <= |low|
    requires forall j :: base + s <= j < base + s + n && j < base + total ==> low[j] == RunByte(j - (base + s), n)
    requires n >= 1
    ensures ClearChain(low, base + s, base + total)[base..base + total] == Cleared(low[base..base + total], s, n)
    ensures forall j :: 0 <= j < |low| && !(base <= j < base + total)
                    ==> ClearChain(low, base + s, base + total)[j] == low[j]
  {
    assert forall j :: base + s <= j < base + s + (n - 0) && j < base + total ==> low[j] == RunByte(j - (base + s) + 0, n);
    ClearChainIsRun(low, base + s, base + total, 0, n);
  }

  /** One block never leaves the table: it is found iff any block is free. */
  lemma SingleBlock(t: seq<Entry>, r: int)
    requires ScanAnswer(t, 1, r)
    ensures r >= 0 <==> FreeCount(t) > 0
    ensures r >= 0 ==> r < |t| && IsFree(t[r])
  {
    CountPositive(t, |t|);
    if FreeCount(t) > 0 {
      var i :| 0 <= i < |t| && IsFree(t[i]);
      assert Fits(t, i, 1);
      assert IsFree(t[r]);
    } else {
      forall s ensures !Fits(t, s, 1) { assert 0 <= s < |t| ==> !IsFree(t[s]); }
    }
  }
}
