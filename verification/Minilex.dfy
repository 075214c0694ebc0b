/** The lexer generator minilex.c: the trie it builds over a set of words, the bytecode it emits, and
    lextable_decode (parsers.c), which interprets that bytecode one character at a time. */
module Minilex {

  type Str = seq<nat>

  const MAX_STATES: nat := 1000
  const PARALLEL: nat := 30

  /** One alternative of a state: a character and where it leads, or a word's index and 0. */
  datatype Entry = Entry(c: nat, to: nat)

  // ---------------------------------------------------------------- the set of words

  /** No word is an initial part of another. */
  ghost predicate PrefixFree(words: seq<Str>) {
    forall i, j :: 0 <= i < |words| && 0 <= j < |words| && i != j && words[i] != [] ==> !(words[i] <= words[j])
  }

  ghost predicate Lower(words: seq<Str>) {
    forall i, j :: 0 <= i < |words| && 0 <= j < |words[i]| ==>
      0 < words[i][j] < 128 && !('A' as int <= words[i][j] <= 'Z' as int)
  }

  ghost function Prefixes(words: seq<Str>): set<Str> {
    set i, j | 0 <= i < |words| && 0 <= j <= |words[i]| :: words[i][..j]
  }

  /** The words' initial parts that are one longer than `u` and continue it. */
  ghost function Branches(words: seq<Str>, u: Str): set<Str> {
    set p | p in Prefixes(words) && |p| == |u| + 1 && u <= p
  }

  /** What the generator's fixed tables can hold. */
  ghost predicate WithinLimits(words: seq<Str>) {
    && |words| <= 128
    && |Prefixes(words)| <= MAX_STATES
    && forall u :: u in Prefixes(words) ==> |Branches(words, u)| <= PARALLEL
  }

  ghost predicate IsPrefix(words: seq<Str>, u: Str) {
    exists k :: 0 <= k < |words| && u <= words[k]
  }

  lemma PrefixIn(words: seq<Str>, u: Str)
    ensures u in Prefixes(words) <==> IsPrefix(words, u)
  {
    if IsPrefix(words, u) {
      var k :| 0 <= k < |words| && u <= words[k];
      assert u == words[k][..|u|];
    }
  }

  /** Distinct members of a set are no more than its size. */
  lemma {:induction false} DistinctBound<T>(s: seq<T>, all: set<T>)
    requires forall i :: 0 <= i < |s| ==> s[i] in all
    requires forall i, j :: 0 <= i < j < |s| ==> s[i] != s[j]
    ensures |s| <= |all|
    decreases |s|
  {
    if s != [] {
      var last := s[|s| - 1];
      DistinctBound(s[..|s| - 1], all - {last});
    }
  }

  // ---------------------------------------------------------------- tries

  /** The states and, to reason about them: the string that leads to each, the entry that leads to it
      (a state and an index there), and a word it is an initial part of. */
  datatype Trie = Trie(st: seq<seq<Entry>>, path: seq<Str>, up: seq<(nat, nat)>, owner: seq<nat>)

  predicate Leaf(es: seq<Entry>) { |es| == 1 && es[0].to == 0 }

  ghost predicate Sized(t: Trie) {
    0 < |t.st| == |t.path| == |t.up| == |t.owner|
  }

  /** Entry `y` of state `s` leads forward, to the state whose string is one character longer. */
  ghost predicate Leads(t: Trie, s: nat, y: nat)
    requires Sized(t) && s < |t.st| && y < |t.st[s]|
  {
    var e := t.st[s][y];
    s < e.to < |t.st| && t.path[e.to] == t.path[s] + [e.c] && 0 < e.c < 128
  }

  ghost predicate UpOk(t: Trie, k: nat)
    requires Sized(t) && k < |t.st|
  {
    var (s, y) := t.up[k];
    s < k && y < |t.st[s]| && !Leaf(t.st[s]) && t.st[s][y].to == k
  }

  ghost predicate LeafOk(t: Trie, words: seq<Str>, s: nat)
    requires Sized(t) && s < |t.st|
  {
    Leaf(t.st[s]) ==> var k := t.st[s][0].c; k < |words| && words[k] == t.path[s] && t.path[s] != []
  }

  ghost predicate OwnerOk(t: Trie, words: seq<Str>, s: nat)
    requires Sized(t) && s < |t.st|
  {
    t.owner[s] < |words| && t.path[s] <= words[t.owner[s]]
  }

  /** A well-formed trie, in which the leaves marked `k` are the words `k`. */
  ghost predicate Formed(t: Trie, words: seq<Str>) {
    && Sized(t) && t.path[0] == []
    && (forall s, y :: 0 <= s < |t.st| && !Leaf(t.st[s]) && 0 <= y < |t.st[s]| ==> Leads(t, s, y))
    && (forall s, x, y :: 0 <= s < |t.st| && 0 <= x < y < |t.st[s]| ==> t.st[s][x].c != t.st[s][y].c)
    && (forall s, k :: 0 <= s < k < |t.st| ==> t.path[s] != t.path[k])
    && (forall k :: 0 < k < |t.st| ==> UpOk(t, k))
    && (forall s :: 0 <= s < |t.st| ==> LeafOk(t, words, s))
    && (forall s :: 0 <= s < |t.st| ==> OwnerOk(t, words, s))
  }

  /** The first words are in the trie, word `k` at the leaf `ends[k]`. */
  ghost predicate Holds(t: Trie, words: seq<Str>, ends: seq<nat>)
    requires Sized(t) && |ends| <= |words|
  {
    forall k :: 0 <= k < |ends| && words[k] != [] ==> HoldsWord(t, words, k, ends[k])
  }

  ghost predicate HoldsWord(t: Trie, words: seq<Str>, k: nat, s: nat)
    requires Sized(t) && k < |words|
  {
    s < |t.st| && t.path[s] == words[k] && t.st[s] == [Entry(k, 0)]
  }

  /** A state's child is found among its entries. */
  lemma ChildEntry(t: Trie, words: seq<Str>, s: nat, c: nat, k: nat) returns (y: nat)
    requires Formed(t, words) && s < |t.st| && k < |t.st| && t.path[k] == t.path[s] + [c]
    ensures y < |t.st[s]| && t.st[s][y] == Entry(c, k) && !Leaf(t.st[s])
  {
    assert k > 0 && UpOk(t, k);
    var (p, x) := t.up[k];
    assert Leads(t, p, x);
    assert t.path[p] == t.path[k][..|t.path[k]| - 1] == t.path[s];
    y := x;
  }

  /** Every initial part of a state's string leads to a state. */
  lemma {:induction false} Ancestor(t: Trie, words: seq<Str>, k: nat, i: nat) returns (s: nat)
    requires Formed(t, words) && k < |t.st| && i <= |t.path[k]|
    ensures s < |t.st| && t.path[s] == t.path[k][..i]
    decreases k
  {
    if i == |t.path[k]| {
      s := k;
    } else {
      assert k > 0 && UpOk(t, k);
      var (p, x) := t.up[k];
      assert Leads(t, p, x);
      s := Ancestor(t, words, p, i);
    }
  }

  /** A new state for a character not seen before. */
  function Grow(t: Trie, s: nat, c: nat, n: nat): Trie
    requires Sized(t) && s < |t.st|
  {
    Trie(t.st[s := t.st[s] + [Entry(c, |t.st|)]] + [[]], t.path + [t.path[s] + [c]],
         t.up + [(s, |t.st[s]|)], t.owner + [n])
  }

  lemma GrowFormed(t: Trie, words: seq<Str>, s: nat, c: nat, n: nat)
    requires Formed(t, words) && s < |t.st| && !Leaf(t.st[s]) && 0 < c < 128
    requires forall y :: 0 <= y < |t.st[s]| ==> t.st[s][y].c != c
    requires n < |words| && t.path[s] + [c] <= words[n]
    ensures Formed(Grow(t, s, c, n), words)
  {
    var t' := Grow(t, s, c, n);
    var k := |t.st|;
    forall r, y | 0 <= r < |t'.st| && !Leaf(t'.st[r]) && 0 <= y < |t'.st[r]| ensures Leads(t', r, y) {
      if r != s || y < |t.st[s]| {
        assert Leads(t, r, y);
      }
    }
    forall r | 0 <= r < k ensures t'.path[r] != t'.path[k] {
      if t.path[r] == t.path[s] + [c] {
        var y := ChildEntry(t, words, s, c, r);
      }
    }
    forall r | 0 < r < |t'.st| ensures UpOk(t', r) {
      if r < k {
        assert UpOk(t, r);
        var (p, x) := t.up[r];
        assert t'.up[r] == (p, x) && t'.st[p][x] == t.st[p][x];
      }
    }
    forall r | 0 <= r < |t'.st| ensures LeafOk(t', words, r) && OwnerOk(t', words, r) {
      if r < k {
        assert LeafOk(t, words, r) && OwnerOk(t, words, r);
      }
    }
  }

  /** The terminal marker of word `n`. */
  function Mark(t: Trie, s: nat, n: nat): Trie
    requires Sized(t) && s < |t.st|
  {
    t.(st := t.st[s := [Entry(n, 0)]])
  }

  lemma MarkFormed(t: Trie, words: seq<Str>, s: nat, n: nat)
    requires Formed(t, words) && s < |t.st| && t.st[s] == [] && n < |words| && t.path[s] == words[n] != []
    ensures Formed(Mark(t, s, n), words)
  {
    var t' := Mark(t, s, n);
    forall r, y | 0 <= r < |t'.st| && !Leaf(t'.st[r]) && 0 <= y < |t'.st[r]| ensures Leads(t', r, y) {
      assert Leads(t, r, y);
    }
    forall r | 0 < r < |t'.st| ensures UpOk(t', r) {
      assert UpOk(t, r);
      var (p, x) := t.up[r];
      assert p != s;
    }
    forall r | 0 <= r < |t'.st| ensures LeafOk(t', words, r) && OwnerOk(t', words, r) {
      assert LeafOk(t, words, r) && OwnerOk(t, words, r);
    }
  }

  // ---------------------------------------------------------------- building

  /** The first `n` words are in, and every state that `walk` is not at has a way on. */
  ghost predicate Progress(t: Trie, words: seq<Str>, ends: seq<nat>, walk: nat) {
    && Formed(t, words) && |ends| <= |words| && Holds(t, words, ends)
    && (forall s :: 0 <= s < |t.st| && Leaf(t.st[s]) ==> t.st[s][0].c < |ends|)
    && (forall s :: 0 <= s < |t.st| && s != walk ==> t.st[s] != [])
    && walk < |t.st|
  }

  /** On the way to the end of a word the walk is never at a leaf. */
  lemma NotAtLeaf(t: Trie, words: seq<Str>, ends: seq<nat>, walk: nat, m: nat)
    requires PrefixFree(words) && Progress(t, words, ends, walk) && |ends| < |words|
    requires m < |words[|ends|]| && t.path[walk] == words[|ends|][..m]
    ensures !Leaf(t.st[walk])
  {
    assert LeafOk(t, words, walk);
  }

  /** The state at the end of a word is a new one. */
  lemma EndIsNew(t: Trie, words: seq<Str>, ends: seq<nat>, walk: nat)
    requires PrefixFree(words) && Progress(t, words, ends, walk) && |ends| < |words|
    requires t.path[walk] == words[|ends|] != []
    ensures t.st[walk] == []
  {
    assert LeafOk(t, words, walk);
    if !Leaf(t.st[walk]) && t.st[walk] != [] {
      var j := WayOn(t, words, walk);
      assert false;
    }
  }

  /** A state with a way on spells a proper initial part of some word. */
  lemma WayOn(t: Trie, words: seq<Str>, s: nat) returns (j: nat)
    requires Formed(t, words) && s < |t.st| && !Leaf(t.st[s]) && t.st[s] != []
    ensures j < |words| && t.path[s] < words[j]
  {
    assert Leads(t, s, 0);
    var k := t.st[s][0].to;
    assert OwnerOk(t, words, k);
    j := t.owner[k];
  }

  lemma GrowProgress(t: Trie, words: seq<Str>, ends: seq<nat>, walk: nat, c: nat)
    requires Progress(t, words, ends, walk) && !Leaf(t.st[walk])
    requires Formed(Grow(t, walk, c, |ends|), words)
    ensures Progress(Grow(t, walk, c, |ends|), words, ends, |t.st|)
  {
    var t' := Grow(t, walk, c, |ends|);
    forall k | 0 <= k < |ends| && words[k] != [] ensures HoldsWord(t', words, k, ends[k]) {
      assert HoldsWord(t, words, k, ends[k]);
    }
  }

  lemma MarkProgress(t: Trie, words: seq<Str>, ends: seq<nat>, walk: nat)
    requires Progress(t, words, ends, walk) && |ends| < |words| && t.st[walk] == []
             && t.path[walk] == words[|ends|] != []
    ensures Progress(Mark(t, walk, |ends|), words, ends + [walk], 0)
  {
    var t', n := Mark(t, walk, |ends|), |ends|;
    MarkFormed(t, words, walk, n);
    forall k | 0 <= k < n + 1 && words[k] != [] ensures HoldsWord(t', words, k, (ends + [walk])[k]) {
      if k < n {
        assert HoldsWord(t, words, k, ends[k]);
      }
    }
  }

  /** A trie has no more states than the words have initial parts, and no state more entries than
      ways on. */
  lemma StateBound(t: Trie, words: seq<Str>)
    requires Formed(t, words) && WithinLimits(words)
    ensures |t.st| <= MAX_STATES
  {
    forall s | 0 <= s < |t.path| ensures t.path[s] in Prefixes(words) {
      assert OwnerOk(t, words, s);
      PrefixIn(words, t.path[s]);
    }
    DistinctBound(t.path, Prefixes(words));
  }

  lemma EntryBound(t: Trie, words: seq<Str>, s: nat)
    requires Formed(t, words) && WithinLimits(words) && s < |t.st| && !Leaf(t.st[s])
    ensures |t.st[s]| <= PARALLEL
  {
    var u, es := t.path[s], t.st[s];
    assert OwnerOk(t, words, s);
    PrefixIn(words, u);
    var ps := seq(|es|, y requires 0 <= y < |es| => u + [es[y].c]);
    forall y | 0 <= y < |es| ensures ps[y] in Branches(words, u) {
      assert Leads(t, s, y);
      assert OwnerOk(t, words, es[y].to);
      PrefixIn(words, ps[y]);
    }
    forall x, y | 0 <= x < y < |es| ensures ps[x] != ps[y] {
      assert ps[x][|u|] == es[x].c && ps[y][|u|] == es[y].c;
    }
    DistinctBound(ps, Branches(words, u));
  }

  /** The table of states holds the trie, and is clear beyond it. */
  ghost predicate Table(state: array<seq<Entry>>, next: nat, t: Trie)
    reads state
  {
    && next <= state.Length == MAX_STATES && t.st == state[..next]
    && forall i :: next <= i < MAX_STATES ==> state[i] == []
  }

  ghost predicate Lexable(words: seq<Str>) {
    words != [] && Lower(words) && PrefixFree(words) && WithinLimits(words)
  }

  /** One character of a word: along the entry for it if there is one, else into a new state. */
  method Follow(state: array<seq<Entry>>, next0: nat, walk0: nat, c: nat, ghost m: nat, ghost words: seq<Str>,
          ghost t0: Trie, ghost ends: seq<nat>)
      returns (next: nat, walk: nat, ghost t: Trie)
    requires Lexable(words) && Table(state, next0, t0) && Progress(t0, words, ends, walk0)
    requires |ends| < |words| && m < |words[|ends|]| && t0.path[walk0] == words[|ends|][..m] && c == words[|ends|][m]
    modifies state
    ensures Table(state, next, t) && Progress(t, words, ends, walk) && t.path[walk] == words[|ends|][..m + 1]
  {
    ghost var n := |ends|;
    next, walk, t := next0, walk0, t0;
    NotAtLeaf(t, words, ends, walk, m);
    var y := 0;
    while y < |state[walk]| && state[walk][y].c != c
      invariant y <= |state[walk]| && forall x :: 0 <= x < y ==> state[walk][x].c != c
    {
      y := y + 1;
    }
    if y < |state[walk]| {
      assert Leads(t, walk, y);
      walk := state[walk][y].to;
    } else {
      t := Grow(t0, walk0, c, n);
      GrowFormed(t0, words, walk0, c, n);
      GrowProgress(t0, words, ends, walk0, c);
      StateBound(t, words);
      EntryBound(t, words, walk0);
      assert |state[walk]| < PARALLEL;
      state[walk] := state[walk] + [Entry(c, next)];
      walk := next;
      next := next + 1;
    }
  }

  /** One word: its characters in turn, then the terminal marker over the state at its end. */
  method AddWord(state: array<seq<Entry>>, next0: nat, n: nat, word: Str, ghost words: seq<Str>, ghost t0: Trie,
          ghost ends: seq<nat>)
      returns (next: nat, ghost t: Trie, ghost end: nat)
    requires Lexable(words) && Table(state, next0, t0) && Progress(t0, words, ends, 0)
    requires n == |ends| < |words| && words[n] == word != []
    modifies state
    ensures Table(state, next, t) && Progress(t, words, ends + [end], 0)
  {
    next, t := next0, t0;
    var m: nat, walk: nat := 0, 0;
    while m < |word|
      invariant m <= |word| && Table(state, next, t) && Progress(t, words, ends, walk) && t.path[walk] == word[..m]
    {
      next, walk, t := Follow(state, next, walk, word[m], m, words, t, ends);
      m := m + 1;
    }
    assert word[..m] == word;
    EndIsNew(t, words, ends, walk);
    MarkProgress(t, words, ends, walk);
    state[walk] := [Entry(n, 0)];
    t, end := Mark(t, walk, n), walk;
  }

  /** minilex.c, first part: the states made for the words, in the order they are made.  A word of
      no characters is passed over. */
  method Build(words: seq<Str>) returns (state: array<seq<Entry>>, next: nat, ghost t: Trie, ghost ends: seq<nat>)
    requires Lexable(words)
    ensures fresh(state) && Table(state, next, t)
    ensures |ends| == |words| && Progress(t, words, ends, 0)
  {
    state := new seq<Entry>[MAX_STATES](i => []);
    next := 1;
    t, ends := Trie([[]], [[]], [(0, 0)], [0]), [];
    assert state[..1] == [[]];
    var n := 0;
    while n < |words|
      invariant n == |ends| <= |words| && Table(state, next, t) && Progress(t, words, ends, 0)
    {
      ghost var end := 0;
      if words[n] != [] {
        next, t, end := AddWord(state, next, n, words[n], words, t, ends);
      }
      ends := ends + [end];
      n := n + 1;
    }
  }

  // ---------------------------------------------------------------- bytecode

  /** The byte position of state `s`: two bytes for every entry before it. */
  function Pos(st: seq<seq<Entry>>, s: nat): nat
    requires s <= |st|
  {
    if s == 0 then 0 else Pos(st, s - 1) + 2 * |st[s - 1]|
  }

  lemma {:induction false} PosForward(st: seq<seq<Entry>>, s: nat, r: nat)
    requires s < r <= |st|
    ensures Pos(st, s) + 2 * |st[s]| <= Pos(st, r)
    decreases r
  {
    if s < r - 1 {
      PosForward(st, s, r - 1);
    }
  }

  /** How far ahead entry `y` of state `s` jumps, in bytes. */
  function Jump(st: seq<seq<Entry>>, s: nat, y: nat): int
    requires s < |st| && y < |st[s]| && st[s][y].to < |st|
  {
    Pos(st, st[s][y].to) - (Pos(st, s) + 2 * y)
  }

  /** The two bytes of an entry: the character, its top bit set on the last alternative, and half the
      jump, or 0 for a terminal marker. */
  ghost predicate CodedEntry(table: seq<nat>, st: seq<seq<Entry>>, s: nat, y: nat)
    requires s < |st| && y < |st[s]| && st[s][y].to < |st|
  {
    var p, e := Pos(st, s) + 2 * y, st[s][y];
    && p + 1 < |table| && table[p] == e.c + (if y == |st[s]| - 1 then 128 else 0)
    && (if e.to == 0 then table[p + 1] == 0 else 0 < table[p + 1] < 256 && 2 * table[p + 1] == Jump(st, s, y))
  }

  ghost predicate Forward(st: seq<seq<Entry>>) {
    forall s, y :: 0 <= s < |st| && 0 <= y < |st[s]| ==>
      st[s][y].to < |st| && (st[s][y].to == 0 || s < st[s][y].to) && st[s][y].c < 128
  }

  ghost predicate Coded(table: seq<nat>, st: seq<seq<Entry>>)
    requires Forward(st)
  {
    && |table| == Pos(st, |st|)
    && forall s, y :: 0 <= s < |st| && 0 <= y < |st[s]| ==> CodedEntry(table, st, s, y)
  }

  lemma TrieForward(t: Trie, words: seq<Str>, ends: seq<nat>)
    requires Progress(t, words, ends, 0) && |words| <= 128
    ensures Forward(t.st)
  {
    forall s, y | 0 <= s < |t.st| && 0 <= y < |t.st[s]|
      ensures t.st[s][y].to < |t.st| && (t.st[s][y].to == 0 || s < t.st[s][y].to) && t.st[s][y].c < 128
    {
      if !Leaf(t.st[s]) {
        assert Leads(t, s, y);
      }
    }
  }

  /** The byte position of every state. */
  method Positions(state: array<seq<Entry>>, next: nat) returns (bytepos: array<nat>)
    requires next <= state.Length
    ensures fresh(bytepos) && bytepos.Length == next
    ensures forall n :: 0 <= n < next ==> bytepos[n] == Pos(state[..next], n)
  {
    bytepos := new nat[next];
    var walk := 0;
    for n := 0 to next
      invariant walk == Pos(state[..next], n)
      invariant forall i :: 0 <= i < n ==> bytepos[i] == Pos(state[..next], i)
    {
      bytepos[n] := walk;
      walk := walk + 2 * |state[n]|;
    }
  }

  /** The bytes of one state, after `table0`; it gives up on a jump that does not fit a byte. */
  method EmitState(es: seq<Entry>, bytepos: array<nat>, table0: seq<nat>, ghost st: seq<seq<Entry>>, ghost s: nat)
      returns (ok: bool, table: seq<nat>)
    requires Forward(st) && s < |st| && es == st[s] && |table0| == Pos(st, s)
    requires bytepos.Length == |st| && forall n :: 0 <= n < |st| ==> bytepos[n] == Pos(st, n)
    ensures ok <==> forall y :: 0 <= y < |es| ==> Jump(st, s, y) <= 510
    ensures ok ==> table0 <= table && |table| == Pos(st, s + 1)
    ensures ok ==> forall y :: 0 <= y < |es| ==> CodedEntry(table, st, s, y)
  {
    ok, table := true, table0;
    for m := 0 to |es|
      invariant ok && table0 <= table && |table| == Pos(st, s) + 2 * m
      invariant forall y :: 0 <= y < m ==> CodedEntry(table, st, s, y) && Jump(st, s, y) <= 510
    {
      var walk := |table|;
      ghost var before := table;
      var y := es[m].c + (if m == |es| - 1 then 128 else 0);
      var saw := es[m].to;
      if saw == 0 {
        PosStart(st);
        table := table + [y, 0];
      } else {
        PosForward(st, s, saw);
        if (bytepos[saw] - walk) / 2 > 0xff {
          JumpEven(st, s, m);
          return false, table;
        }
        JumpEven(st, s, m);
        table := table + [y, (bytepos[saw] - walk) / 2];
      }
      forall x | 0 <= x < m ensures CodedEntry(table, st, s, x) {
        CodedGrow(before, table, st, s, x);
      }
      assert CodedEntry(table, st, s, m);
    }
  }

  lemma CodedGrow(table: seq<nat>, more: seq<nat>, st: seq<seq<Entry>>, s: nat, y: nat)
    requires s < |st| && y < |st[s]| && st[s][y].to < |st|
    requires CodedEntry(table, st, s, y) && table <= more
    ensures CodedEntry(more, st, s, y)
  {}

  lemma PosStart(st: seq<seq<Entry>>)
    ensures Pos(st, 0) == 0
  {}

  lemma JumpEven(st: seq<seq<Entry>>, s: nat, y: nat)
    requires s < |st| && y < |st[s]| && st[s][y].to < |st|
    ensures Jump(st, s, y) % 2 == 0
  {
    PosEven(st, s);
    PosEven(st, st[s][y].to);
  }

  lemma {:induction false} PosEven(st: seq<seq<Entry>>, s: nat)
    requires s <= |st|
    ensures Pos(st, s) % 2 == 0
  {
    if s > 0 {
      PosEven(st, s - 1);
    }
  }

  /** minilex.c, second part: the bytecode, unless some jump does not fit a byte. */
  method Emit(state: array<seq<Entry>>, next: nat) returns (ok: bool, table: seq<nat>)
    requires next <= state.Length && Forward(state[..next])
    ensures ok <==> forall s, y :: 0 <= s < next && 0 <= y < |state[s]| ==> Jump(state[..next], s, y) <= 510
    ensures ok ==> Coded(table, state[..next])
  {
    hide Pos, CodedEntry, Jump;
    ghost var st := state[..next];
    PosStart(st);
    var bytepos := Positions(state, next);
    ok, table := true, [];
    for n := 0 to next
      invariant ok && |table| == Pos(st, n) && forall i :: 0 <= i < next ==> bytepos[i] == Pos(st, i)
      invariant forall s, y :: 0 <= s < n && 0 <= y < |st[s]| ==> CodedEntry(table, st, s, y) && Jump(st, s, y) <= 510
    {
      ghost var before := table;
      ok, table := EmitState(state[n], bytepos, table, st, n);
      assert st[n] == state[n];
      if !ok {
        ghost var y :| 0 <= y < |st[n]| && Jump(st, n, y) > 510;
        assert 0 <= n < next && 0 <= y < |state[n]| && Jump(state[..next], n, y) > 510;
        return;
      }
      forall s, y | 0 <= s < n && 0 <= y < |st[s]| ensures CodedEntry(table, st, s, y) {
        CodedGrow(before, table, st, s, y);
      }
    }
  }

  // ---------------------------------------------------------------- the interpreter

  function ToLower(c: nat): nat { if 'A' as int <= c <= 'Z' as int then c + 32 else c }

  /** It folds the case of letters, and leaves everything else. */
  lemma ToLowerIs(i: nat)
    requires i < 26
    ensures ToLower("ABCDEFGHIJKLMNOPQRSTUVWXYZ"[i] as int) == "abcdefghijklmnopqrstuvwxyz"[i] as int
  {}

  lemma ToLowerElse(c: nat) returns (i: nat)
    requires ToLower(c) != c
    ensures i < 26 && c == "ABCDEFGHIJKLMNOPQRSTUVWXYZ"[i] as int
  {
    i := c - 65;
  }

  function Lowered(s: Str): (r: Str)
    ensures |r| == |s|
  {
    seq(|s|, i requires 0 <= i < |s| => ToLower(s[i]))
  }

  /** lextable_decode: one character from the position of a state. */
  method LextableDecode(table: seq<nat>, pos0: int, c: nat, ghost st: seq<seq<Entry>>, ghost s: nat) returns (pos: int)
    requires pos0 >= 0 ==> Forward(st) && Coded(table, st) && s < |st| && st[s] != [] && pos0 == Pos(st, s)
    requires pos0 >= 0 ==> Leaf(st[s]) || forall y :: 0 <= y < |st[s]| ==> st[s][y].to != 0
    ensures pos0 < 0 ==> pos == pos0
    ensures pos0 >= 0 && Leaf(st[s]) ==> pos == pos0
    ensures pos0 >= 0 && !Leaf(st[s]) ==>
      (pos == -1 && forall y :: 0 <= y < |st[s]| ==> st[s][y].c != ToLower(c))
      || (exists y :: 0 <= y < |st[s]| && st[s][y].c == ToLower(c) && pos == Pos(st, st[s][y].to))
  {
    pos := pos0;
    if pos < 0 {
      return;
    }
    ghost var y := 0;
    while true
      invariant y < |st[s]| && pos == Pos(st, s) + 2 * y && (Leaf(st[s]) ==> y == 0)
      invariant forall x :: 0 <= x < y ==> st[s][x].c != ToLower(c)
      decreases |st[s]| - y
    {
      assert CodedEntry(table, st, s, y);
      if table[pos + 1] == 0 {
        return pos;
      }
      if table[pos] % 128 == ToLower(c) {
        return pos + table[pos + 1] * 2;
      }
      if table[pos] >= 128 {
        return -1;
      }
      pos := pos + 2;
      y := y + 1;
    }
  }

  /** What a string comes to: word `k` after its first `i` characters, nothing after its first `i`
      characters, or possibly more to come. */
  datatype Reading = Matched(k: nat, i: nat) | Failed(i: nat) | Pending

  /** `u` can still grow into a word. */
  ghost predicate Open(words: seq<Str>, u: Str) {
    exists k :: 0 <= k < |words| && u < words[k]
  }

  /** The reading of a string, in terms of the words alone. */
  ghost predicate Reads(words: seq<Str>, input: Str, r: Reading) {
    match r
    case Matched(k, i) => k < |words| && i <= |input| && words[k] == Lowered(input[..i]) != []
    case Failed(i) => 0 < i <= |input| && !IsPrefix(words, Lowered(input[..i])) && Open(words, Lowered(input[..i - 1]))
    case Pending => Open(words, Lowered(input))
  }

  /** There is only one reading, so the conditions above say exactly when each is given. */
  lemma OneReading(words: seq<Str>, input: Str, r: Reading, r': Reading)
    requires PrefixFree(words) && Reads(words, input, r) && Reads(words, input, r')
    ensures r == r'
  {
  }

  /** A state with a way on: its string can grow into a word, and is none itself. */
  lemma InnerOpen(t: Trie, words: seq<Str>, s: nat)
    requires Formed(t, words) && s < |t.st| && !Leaf(t.st[s]) && t.st[s] != []
    ensures Open(words, t.path[s])
  {
    var j := WayOn(t, words, s);
  }

  /** Without an entry for it, a character leads out of the words. */
  lemma NoWay(t: Trie, words: seq<Str>, ends: seq<nat>, s: nat, c: nat)
    requires Progress(t, words, ends, 0) && |ends| == |words| && s < |t.st| && !Leaf(t.st[s])
    requires forall y :: 0 <= y < |t.st[s]| ==> t.st[s][y].c != c
    ensures !IsPrefix(words, t.path[s] + [c])
  {
    var u := t.path[s] + [c];
    if IsPrefix(words, u) {
      var k :| 0 <= k < |words| && u <= words[k];
      assert HoldsWord(t, words, k, ends[k]);
      var r := Ancestor(t, words, ends[k], |u|);
      var y := ChildEntry(t, words, s, c, r);
      assert false;
    }
  }

  /** The first state has a way on as soon as there is a word. */
  lemma RootInner(t: Trie, words: seq<Str>, ends: seq<nat>, k: nat)
    requires Progress(t, words, ends, 0) && |ends| == |words| && k < |words| && words[k] != []
    ensures t.st[0] != [] && !Leaf(t.st[0])
  {
    assert HoldsWord(t, words, k, ends[k]);
    assert ends[k] != 0;
    assert UpOk(t, 1);
    var (p, y) := t.up[1];
    assert p == 0;
    assert LeafOk(t, words, 0);
  }

  lemma InnerTargets(t: Trie, words: seq<Str>, s: nat)
    requires Formed(t, words) && s < |t.st| && !Leaf(t.st[s])
    ensures forall y :: 0 <= y < |t.st[s]| ==> t.st[s][y].to != 0
  {
    forall y | 0 <= y < |t.st[s]| ensures t.st[s][y].to != 0 {
      assert Leads(t, s, y);
    }
  }

  /** A terminal marker at a position is a leaf of the trie. */
  lemma TerminalByte(table: seq<nat>, t: Trie, words: seq<Str>, s: nat)
    requires Formed(t, words) && Forward(t.st) && Coded(table, t.st) && s < |t.st| && t.st[s] != []
    ensures var pos := Pos(t.st, s);
            pos + 1 < |table| && (table[pos + 1] == 0 <==> Leaf(t.st[s]))
                && (Leaf(t.st[s]) ==> table[pos] % 128 == t.st[s][0].c)
  {
    FirstEntry(table, t.st, s);
    if !Leaf(t.st[s]) {
      FirstLeads(t, words, s);
    }
    hide Coded, Formed, Forward, Pos;
  }

  lemma FirstEntry(table: seq<nat>, st: seq<seq<Entry>>, s: nat)
    requires Forward(st) && Coded(table, st) && s < |st| && st[s] != []
    ensures var pos, e := Pos(st, s), st[s][0];
            pos + 1 < |table| && (table[pos + 1] == 0 <==> e.to == 0) && e.c < 128
            && (|st[s]| == 1 ==> table[pos] == e.c + 128)
  {
    assert CodedEntry(table, st, s, 0);
    hide Pos, Coded, Jump;
  }

  lemma FirstLeads(t: Trie, words: seq<Str>, s: nat)
    requires Formed(t, words) && s < |t.st| && t.st[s] != [] && !Leaf(t.st[s])
    ensures t.st[s][0].to != 0
  {
    assert Leads(t, s, 0);
  }

  /** A state inside the trie. */
  ghost predicate Inner(t: Trie, s: nat) {
    s < |t.st| && t.st[s] != [] && !Leaf(t.st[s])
  }

  /** One character: out of the words, or on to the state whose string has it added. */
  method ReadChar(table: seq<nat>, pos0: nat, c: nat, ghost t: Trie, ghost words: seq<Str>, ghost ends: seq<nat>,
          ghost s: nat)
      returns (pos: int, ghost r: nat)
    requires Lexable(words) && Progress(t, words, ends, 0) && |ends| == |words| && Forward(t.st) && Coded(table, t.st)
    requires Inner(t, s) && Inner(t, 0) && pos0 == Pos(t.st, s)
    ensures if pos < 0 then !IsPrefix(words, t.path[s] + [ToLower(c)])
            else r < |t.st| && t.path[r] == t.path[s] + [ToLower(c)] && t.st[r] != [] && pos == Pos(t.st, r)
  {
    InnerTargets(t, words, s);
    pos := LextableDecode(table, pos0, c, t.st, s);
    r := 0;
    if pos < 0 {
      NoWay(t, words, ends, s, ToLower(c));
    } else {
      ghost var y :| 0 <= y < |t.st[s]| && t.st[s][y].c == ToLower(c) && pos == Pos(t.st, t.st[s][y].to);
      assert Leads(t, s, y);
      r := t.st[s][y].to;
    }
  }

  lemma LeafWord(t: Trie, words: seq<Str>, s: nat)
    requires Formed(t, words) && s < |t.st| && Leaf(t.st[s])
    ensures var k := t.st[s][0].c; k < |words| && words[k] == t.path[s]
  {
    assert LeafOk(t, words, s);
  }

  /** One character, and whether a word ends with it. */
  method ReadOn(table: seq<nat>, pos0: nat, c: nat, ghost t: Trie, ghost words: seq<Str>, ghost ends: seq<nat>,
          ghost s: nat)
      returns (pos: int, word: Option, ghost r: nat)
    requires Lexable(words) && Progress(t, words, ends, 0) && |ends| == |words| && Forward(t.st) && Coded(table, t.st)
    requires Inner(t, s) && Inner(t, 0) && pos0 == Pos(t.st, s)
    ensures pos < 0 ==> !IsPrefix(words, t.path[s] + [ToLower(c)])
    ensures pos >= 0 && word.Some? ==> word.k < |words| && words[word.k] == t.path[s] + [ToLower(c)]
    ensures pos >= 0 && word.None? ==> Inner(t, r) && t.path[r] == t.path[s] + [ToLower(c)] && pos == Pos(t.st, r)
  {
    pos, r := ReadChar(table, pos0, c, t, words, ends, s);
    word := None;
    if pos >= 0 {
      assert Formed(t, words);
      hide Formed, Coded, Forward, Pos, Progress;
      TerminalByte(table, t, words, r);
      if table[pos + 1] == 0 {
        LeafWord(t, words, r);
        word := Some(table[pos] % 128);
      }
    }
  }

  datatype Option = None | Some(k: nat)

  lemma LoweredNone()
    ensures Lowered([]) == []
  {}

  lemma LoweredNext(input: Str, m: nat)
    requires m < |input|
    ensures Lowered(input[..m + 1]) == Lowered(input[..m]) + [ToLower(input[m])] != []
  {}

  /** Reading a string with the table, as minilex.c does to try it out and as the header parser does:
      from the first state, a character at a time, up to a terminal marker or a failure. */
  method Read(table: seq<nat>, input: Str, ghost t: Trie, ghost words: seq<Str>, ghost ends: seq<nat>)
          returns (r: Reading)
    requires Lexable(words) && Progress(t, words, ends, 0) && |ends| == |words|
    requires Forward(t.st) && Coded(table, t.st) && exists k :: 0 <= k < |words| && words[k] != []
    ensures Reads(words, input, r)
  {
    ghost var some :| 0 <= some < |words| && words[some] != [];
    assert Formed(t, words) && Sized(t) && t.path[0] == [];
    hide Coded, Forward, Pos, Progress, Lexable, Formed, Lowered, Open, IsPrefix, ToLower;
    RootInner(t, words, ends, some);
    PosStart(t.st);
    LoweredNone();
    var pos: nat, m := 0, 0;
    ghost var s: nat := 0;
    assert input[..0] == [];
    while m < |input|
      invariant m <= |input| && Inner(t, s) && pos == Pos(t.st, s) && Sized(t) && t.path[s] == Lowered(input[..m])
    {
      InnerOpen(t, words, s);
      LoweredNext(input, m);
      var next, word;
      next, word, s := ReadOn(table, pos, input[m], t, words, ends, s);
      m := m + 1;
      if next < 0 {
        return Failed(m);
      }
      if word.Some? {
        return Matched(word.k, m);
      }
      pos := next;
    }
    InnerOpen(t, words, s);
    assert input[..m] == input;
    return Pending;
  }

  /** minilex.c from words to bytecode, and what reading with that bytecode then means.  It fails
      only when a jump is too long; every jump it emits goes forward. */
  method Generate(words: seq<Str>) returns (ok: bool, table: seq<nat>, ghost t: Trie, ghost ends: seq<nat>)
    requires Lexable(words)
    ensures Progress(t, words, ends, 0) && |ends| == |words| && Forward(t.st)
    ensures ok <==> forall s, y :: 0 <= s < |t.st| && 0 <= y < |t.st[s]| ==> Jump(t.st, s, y) <= 510
    ensures ok ==> Coded(table, t.st)
  {
    var state, next;
    state, next, t, ends := Build(words);
    TrieForward(t, words, ends);
    ok, table := Emit(state, next);
  }

  /** From words to reading: with the bytecode of the set, if it has a word and every jump is short enough, any
      input is read as the words alone say. */
  method Recognise(words: seq<Str>, input: Str) returns (ok: bool, r: Reading, ghost t: Trie, ghost ends: seq<nat>)
    requires Lexable(words)
    ensures Progress(t, words, ends, 0) && |ends| == |words| && Forward(t.st)
    ensures ok <==>
            (exists k :: 0 <= k < |words| && words[k] != [])
            && forall s, y :: 0 <= s < |t.st| && 0 <= y < |t.st[s]| ==> Jump(t.st, s, y) <= 510
    ensures ok ==> Reads(words, input, r)
  {
    hide Lexable, Progress, Jump, Coded, Forward, Reads;
    var table;
    ok, table, t, ends := Generate(words);
    r := Pending;
    var k := 0;
    while k < |words| && words[k] == []
      invariant k <= |words| && forall i :: 0 <= i < k ==> words[i] == []
    {
      k := k + 1;
    }
    if k == |words| {
      ok := false;
    } else if ok {
      r := Read(table, input, t, words, ends);
    }
  }
}
