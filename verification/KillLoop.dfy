/** The loop that executes a tree on paper, to draw its graph: sweep after sweep over the rows, letting
    every row kill whose next victim has finished, and giving each kill the earliest possible tick.

    The test for the end marker comes before the look at the victim's own pointer. */
module KillLoop {
  import opened Integers
  import opened KillProtocol
  import opened QrTrees
  import opened ReductionTrees

  /** One node of the graph: at step `k`, `killer` kills `victim` at time `tick`. */
  datatype Node = Node(k: nat, killer: int, victim: int, tick: int)

  ghost predicate Involves(n: Node, row: int) {
    n.killer == row || n.victim == row
  }

  /** Kills that share a row never share a tick, the later one in the graph has the later tick; and no kill
      waits longer than it must: it starts at tick 1 or right after a kill that shares a row with it. */
  ghost predicate Timed(dag: seq<Node>) {
    && (forall i, j, row :: 0 <= i < j < |dag| && Involves(dag[i], row) && Involves(dag[j], row) ==>
            dag[i].tick < dag[j].tick)
    && (forall i :: 0 <= i < |dag| ==> Prompt(dag[..i], dag[i]))
  }

  ghost predicate Prompt(before: seq<Node>, n: Node) {
    n.tick == 1 || LastUse(before, n.killer, n.tick - 1) || LastUse(before, n.victim, n.tick - 1)
  }

  ghost predicate LastUse(dag: seq<Node>, row: int, tick: int) {
    exists i :: 0 <= i < |dag| && Involves(dag[i], row) && dag[i].tick == tick
  }

  /** `pos` holds the time at which each row was last used, zero if it was not. */
  ghost predicate Clock(dag: seq<Node>, pos: seq<int>) {
    && (forall i, row :: 0 <= i < |dag| && 0 <= row < |pos| && Involves(dag[i], row) ==> dag[i].tick <= pos[row])
    && (forall row :: 0 <= row < |pos| ==> pos[row] == 0 || LastUse(dag, row, pos[row]))
  }

  /** The pointers of the loop are those of the protocol state, row by row. */
  ghost predicate Sync(q: QrTree, k: nat, next: seq<int>, st: State)
    requires AtStep(q, k)
  {
    && |next| == Rows(q)
    && (forall m :: k <= m < Rows(q) ==>
          k <= next[m] <= Rows(q) && PlaceAt(q, k, m) in st.next && PlaceAt(q, k, next[m]) == st.next[PlaceAt(q, k, m)])
  }

  /** The nodes drawn so far at step `k` are the kills logged by the protocol. */
  ghost predicate Drawn(q: QrTree, k: nat, part: seq<Node>, log: seq<Kill>)
    requires AtStep(q, k)
  {
    && |part| == |log|
    && forall i :: 0 <= i < |log| ==> IsNode(q, k, part[i], log[i])
  }

  ghost predicate IsNode(q: QrTree, k: nat, n: Node, kill: Kill)
    requires AtStep(q, k)
  {
    && n.k == k && k <= n.killer < Rows(q) && k <= n.victim < Rows(q)
    && PlaceAt(q, k, n.killer) == kill.killer && PlaceAt(q, k, n.victim) == kill.victim
  }

  lemma OneMoreNode(dag: seq<Node>, pos: seq<int>, n: Node, pos': seq<int>)
    requires Timed(dag) && Clock(dag, pos)
    requires 0 <= n.killer < |pos| && 0 <= n.victim < |pos| && n.tick == Max(pos[n.killer], pos[n.victim]) + 1
    requires pos' == pos[n.killer := n.tick][n.victim := n.tick]
    ensures Timed(dag + [n]) && Clock(dag + [n], pos')
  {
    var dag' := dag + [n];
    hide LastUse;
    forall i | 0 <= i < |dag'| ensures Prompt(dag'[..i], dag'[i]) {
      if i < |dag| { assert dag'[..i] == dag[..i]; } else { assert dag'[..i] == dag; }
    }
    forall row | 0 <= row < |pos'| ensures pos'[row] == 0 || LastUse(dag', row, pos'[row]) {
      UsesStay(dag, n, row, pos'[row]);
    }
  }

  lemma UsesStay(dag: seq<Node>, n: Node, row: int, tick: int)
    ensures LastUse(dag, row, tick) || (Involves(n, row) && n.tick == tick) ==> LastUse(dag + [n], row, tick)
  {
    if Involves(n, row) && n.tick == tick { assert (dag + [n])[|dag|] == n; }
    if LastUse(dag, row, tick) {
      var i :| 0 <= i < |dag| && Involves(dag[i], row) && dag[i].tick == tick;
      assert (dag + [n])[i] == dag[i];
    }
  }

  lemma SyncedRowIsEnabled(q: QrTree, k: nat, next: seq<int>, st: State, m: int)
    requires AtStep(q, k) && Inv(TreeAt(q, k), st) && Sync(q, k, next, st) && k <= m < Rows(q)
    ensures Enabled(TreeAt(q, k), st, PlaceAt(q, k, m)) <==> next[m] != Rows(q) && next[next[m]] == Rows(q)
    ensures k <= next[m] <= Rows(q) && PlaceAt(q, k, m) in st.next
    ensures next[m] != Rows(q) ==> IsVictim(TreeAt(q, k), PlaceAt(q, k, m), PlaceAt(q, k, next[m]))
    ensures PlaceAt(q, k, next[m]) == st.next[PlaceAt(q, k, m)]
  {
    Shape(q, k);
    Places(q, k, m);
    Places(q, k, next[m]);
    if next[m] != Rows(q) {
      Places(q, k, next[next[m]]);
    }
  }

  lemma SyncAfterStep(q: QrTree, k: nat, next: seq<int>, st: State, m: int, n': int)
    requires AtStep(q, k) && Inv(TreeAt(q, k), st) && Sync(q, k, next, st) && k <= m < Rows(q)
    requires Enabled(TreeAt(q, k), st, PlaceAt(q, k, m)) && k <= n' <= Rows(q)
    requires Valid(TreeAt(q, k)) && IsNext(TreeAt(q, k), PlaceAt(q, k, m), st.next[PlaceAt(q, k, m)], PlaceAt(q, k, n'))
    ensures Sync(q, k, next[m := n'], Step(TreeAt(q, k), st, PlaceAt(q, k, m)))
  {
    hide TreeAt, PlaceAt, AtStep, IsNext, Next, IsVictim;
    var t, pm := TreeAt(q, k), PlaceAt(q, k, m);
    NextIsUnique(t, pm, st.next[pm], PlaceAt(q, k, n'), Next(t, pm, st.next[pm]));
    forall r | k <= r < Rows(q)
      ensures PlaceAt(q, k, next[m := n'][r]) == Step(t, st, pm).next[PlaceAt(q, k, r)]
    {
      Places(q, k, r);
      Places(q, k, m);
    }
  }

  /** Let row `m` kill its next victim if that has finished. `dag` is the graph of the steps before. */
  method TryRow(q: QrTree, k: nat, m: nat, next: array<int>, pos: array<int>, ghost st: State, ghost dag: seq<Node>,
                part: seq<Node>)
      returns (killed: bool, ghost st': State, part': seq<Node>)
    requires AtStep(q, k) && k <= m < Rows(q) && next != pos && next.Length == pos.Length == Rows(q)
    requires Inv(TreeAt(q, k), st) && Sync(q, k, next[..], st)
    requires Drawn(q, k, part, st.log) && Timed(dag + part) && Clock(dag + part, pos[..])
    modifies next, pos
    ensures Inv(TreeAt(q, k), st') && Sync(q, k, next[..], st')
    ensures Drawn(q, k, part', st'.log) && Timed(dag + part') && Clock(dag + part', pos[..])
    ensures killed <==> Enabled(TreeAt(q, k), st, PlaceAt(q, k, m))
    ensures if killed then |st'.log| == |st.log| + 1 else st' == st
  {
    hide TreeAt, PlaceAt, AtStep, Inv, Timed, Clock, Sync, IsNext, NextRow, PrevRow, Enabled;
    Shape(q, k);
    SyncedRowIsEnabled(q, k, next[..], st, m);
    st' := st;
    part' := part;
    killed := false;
    var n := next[m];
    if n != Rows(q) && next[n] == Rows(q) {
      ghost var pos0, next0 := pos[..], next[..];
      var lpos := Max(pos[m], pos[n]);
      lpos := lpos + 1;
      pos[m] := lpos;
      pos[n] := lpos;
      var node := Node(k, m, n, lpos);
      OneMoreNode(dag + part, pos0, node, pos[..]);
      part' := part + [node];
      assert dag + part' == (dag + part) + [node];
      ghost var t, pm := TreeAt(q, k), PlaceAt(q, k, m);
      var n' := Nextpiv(q, k, m, n);
      SyncAfterStep(q, k, next0, st, m, n');
      StepKeepsInv(t, st, pm);
      st' := Step(t, st, pm);
      next[m] := n';
      assert next[..] == next0[m := n'];
      killed := true;
    }
  }

  /** One sweep over the rows, from the last to the first. While a row above the root lives, it kills. */
  method Sweep(q: QrTree, k: nat, next: array<int>, pos: array<int>, nb0: int, ghost st: State, ghost dag: seq<Node>,
               part: seq<Node>)
      returns (nb: int, ghost st': State, part': seq<Node>)
    requires AtStep(q, k) && next != pos && next.Length == pos.Length == Rows(q)
    requires Inv(TreeAt(q, k), st) && Sync(q, k, next[..], st)
    requires Drawn(q, k, part, st.log) && Timed(dag + part) && Clock(dag + part, pos[..])
    requires nb0 == Rows(q) - k - 1 - |st.log| && nb0 > 0
    modifies next, pos
    ensures Inv(TreeAt(q, k), st') && Sync(q, k, next[..], st')
    ensures Drawn(q, k, part', st'.log) && Timed(dag + part') && Clock(dag + part', pos[..])
    ensures nb == Rows(q) - k - 1 - |st'.log| && nb < nb0
  {
    hide TreeAt, PlaceAt, AtStep, Inv, Sync, Drawn, Timed, Clock;
    Shape(q, k);
    ghost var ready := SomeRowIsReady(q, k, next[..], st);
    nb := nb0;
    st' := st;
    part' := part;
    var m := Rows(q) - 1;
    while m > k - 1
      invariant k - 1 <= m < Rows(q)
      invariant Inv(TreeAt(q, k), st') && Sync(q, k, next[..], st')
      invariant Drawn(q, k, part', st'.log) && Timed(dag + part') && Clock(dag + part', pos[..])
      invariant nb == Rows(q) - k - 1 - |st'.log|
      invariant nb < nb0 || (nb == nb0 && st' == st && ready <= m)
    {
      var killed;
      killed, st', part' := TryRow(q, k, m, next, pos, st', dag, part');
      if killed {
        nb := nb - 1;
      }
      m := m - 1;
    }
  }

  lemma SomeRowIsReady(q: QrTree, k: nat, next: seq<int>, st: State) returns (m: int)
    requires AtStep(q, k) && Inv(TreeAt(q, k), st) && Sync(q, k, next, st)
    requires |st.log| < Rows(q) - k - 1
    ensures k <= m < Rows(q) && Enabled(TreeAt(q, k), st, PlaceAt(q, k, m))
  {
    var t := TreeAt(q, k);
    Shape(q, k);
    LogSize(t, st);
    var live :| live in NonRoots(t) && live !in Victims(st.log);
    var place := LiveRowMeansProgress(t, st, live);
    m := RowAt(q, k, place);
    Places(q, k, place);
  }

  ghost predicate KilledIn(part: seq<Node>, row: int) {
    exists i :: 0 <= i < |part| && part[i].victim == row
  }

  ghost predicate ByItsKiller(q: QrTree, k: nat, n: Node)
    requires AtStep(q, k)
  {
    && n.k == k && k <= n.killer < Rows(q) && k < n.victim < Rows(q)
    && PlaceAt(q, k, n.killer) == TreeAt(q, k).killer(PlaceAt(q, k, n.victim))
  }

  /** The graph of step `k` kills every row of the panel but the first, each once and by the row the tree
      names, and no dead row kills. */
  ghost predicate StepDrawn(q: QrTree, k: nat, part: seq<Node>)
    requires AtStep(q, k)
  {
    && |part| == Rows(q) - k - 1
    && (forall i :: 0 <= i < |part| ==> ByItsKiller(q, k, part[i]))
    && (forall row :: k < row < Rows(q) ==> KilledIn(part, row))
    && (forall i, j :: 0 <= i < j < |part| ==> part[i].victim != part[j].victim && part[i].victim != part[j].killer)
  }

  lemma FinishedNode(q: QrTree, k: nat, st: State, part: seq<Node>, i: nat)
    requires AtStep(q, k) && Inv(TreeAt(q, k), st) && Drawn(q, k, part, st.log) && i < |part|
    ensures ByItsKiller(q, k, part[i])
  {
    hide TreeAt, PlaceAt, AtStep;
    Shape(q, k);
    assert IsNode(q, k, part[i], st.log[i]);
    Places(q, k, part[i].victim);
    assert PassedOver(TreeAt(q, k), st.next, st.log[i].victim);
  }

  lemma FinishedRow(q: QrTree, k: nat, st: State, part: seq<Node>, row: int)
    requires AtStep(q, k) && Inv(TreeAt(q, k), st) && Drawn(q, k, part, st.log)
    requires |st.log| == Rows(q) - k - 1 && k < row < Rows(q)
    ensures KilledIn(part, row)
  {
    hide TreeAt, PlaceAt, AtStep;
    Shape(q, k);
    LogSize(TreeAt(q, k), st);
    Places(q, k, row);
    assert PlaceAt(q, k, row) in Victims(st.log);
    var i :| 0 <= i < |st.log| && st.log[i].victim == PlaceAt(q, k, row);
    assert IsNode(q, k, part[i], st.log[i]);
    Places(q, k, part[i].victim);
    assert part[i].victim == row;
  }

  lemma FinishedStep(q: QrTree, k: nat, st: State, part: seq<Node>)
    requires AtStep(q, k) && Inv(TreeAt(q, k), st) && Drawn(q, k, part, st.log)
    requires |st.log| == Rows(q) - k - 1
    ensures StepDrawn(q, k, part)
  {
    hide TreeAt, PlaceAt, AtStep;
    forall i | 0 <= i < |part| ensures ByItsKiller(q, k, part[i]) { FinishedNode(q, k, st, part, i); }
    forall row | k < row < Rows(q) ensures KilledIn(part, row) { FinishedRow(q, k, st, part, row); }
    forall i, j | 0 <= i < j < |part|
      ensures part[i].victim != part[j].victim && part[i].victim != part[j].killer
    {
      assert IsNode(q, k, part[i], st.log[i]) && IsNode(q, k, part[j], st.log[j]);
    }
  }

  /** Before the first kill of a step, every row points at its first victim. */
  method PointToFirst(q: QrTree, k: nat, next: array<int>)
    requires AtStep(q, k) && next.Length == Rows(q) && Valid(TreeAt(q, k))
    modifies next
    ensures Sync(q, k, next[..], Start(TreeAt(q, k)))
  {
    hide TreeAt, PlaceAt, RowAt, AtStep, NextRow, IsNext, Next, Valid;
    Shape(q, k);
    ghost var t := TreeAt(q, k);
    Places(q, k, Rows(q));
    var m := k;
    while m < Rows(q)
      invariant k <= m <= Rows(q)
      invariant forall r :: k <= r < m ==>
                  k <= next[r] <= Rows(q) && PlaceAt(q, k, next[r]) == Next(t, PlaceAt(q, k, r), t.none)
    {
      NextByPlaces(q, k, m, Rows(q));
      next[m] := Nextpiv(q, k, m, Rows(q));
      m := m + 1;
    }
    forall r | k <= r < Rows(q)
      ensures PlaceAt(q, k, r) in Start(t).next && PlaceAt(q, k, next[r]) == Start(t).next[PlaceAt(q, k, r)]
    {
      Places(q, k, r);
    }
  }

  /** Some row of the panel has nobody to kill at all: the one at the last place. */
  lemma SomeRowKillsNobody(q: QrTree, k: nat) returns (m: int)
    requires AtStep(q, k)
    ensures k <= m < Rows(q) && NextRow(q, k, m, Rows(q)) == Rows(q)
    ensures forall s :: k < s < Rows(q) ==> KillerRow(q, k, s) != m
  {
    hide TreeAt, PlaceAt, RowAt, AtStep, NextRow;
    Shape(q, k);
    var t, last := TreeAt(q, k), Rows(q) - 1;
    Places(q, k, last);
    Places(q, k, Rows(q));
    m := RowAt(q, k, last);
    forall s | k < s < Rows(q) ensures KillerRow(q, k, s) != m {
      Places(q, k, s);
      Places(q, k, k);
      Places(q, k, t.killer(PlaceAt(q, k, s)));
    }
    NextByPlaces(q, k, m, Rows(q));
    Places(q, k, NextRow(q, k, m, Rows(q)));
  }

  /** The code looks at `next[next[m]]` for every row of a sweep, before it tests `next[m]`. In the first sweep
      of a step every row still has the pointer it started with: no access is out of bounds if none of these
      is the end marker. */
  ghost predicate FirstSweepsInBounds(q: QrTree)
    requires Ok(q)
  {
    forall k: nat, m :: k < Steps(q) && Rows(q) - k - 1 > 0 && k <= m < Rows(q) ==> NextRow(q, k, m, Rows(q)) != Rows(q)
  }

  lemma InBoundsOnlyWithOneRow(q: QrTree)
    requires Ok(q)
    ensures FirstSweepsInBounds(q) <==> Rows(q) == 1
  {
    if Rows(q) > 1 {
      var m := SomeRowKillsNobody(q, 0);
    }
  }

  /** All kills of one step. */
  method RunStep(q: QrTree, k: nat, next: array<int>, pos: array<int>, ghost dag: seq<Node>) returns (part: seq<Node>)
    requires AtStep(q, k) && next != pos && next.Length == pos.Length == Rows(q)
    requires Timed(dag) && Clock(dag, pos[..])
    modifies next, pos
    ensures StepDrawn(q, k, part) && Timed(dag + part) && Clock(dag + part, pos[..])
  {
    hide TreeAt, PlaceAt, AtStep, Inv, Timed, Clock, Sync, StepDrawn;
    Shape(q, k);
    var nb2reduce := Rows(q) - k - 1;
    ghost var st := Start(TreeAt(q, k));
    StartIsSafe(TreeAt(q, k));
    PointToFirst(q, k, next);
    part := [];
    assert dag + part == dag;
    while nb2reduce > 0
      invariant Inv(TreeAt(q, k), st) && Sync(q, k, next[..], st)
      invariant Drawn(q, k, part, st.log) && Timed(dag + part) && Clock(dag + part, pos[..])
      invariant nb2reduce == Rows(q) - k - 1 - |st.log|
      decreases nb2reduce
    {
      nb2reduce, st, part := Sweep(q, k, next, pos, nb2reduce, st, dag, part);
    }
    LogSize(TreeAt(q, k), st);
    FinishedStep(q, k, st, part);
  }

  function Flat(parts: seq<seq<Node>>): seq<Node> {
    if parts == [] then [] else Flat(parts[..|parts| - 1]) + parts[|parts| - 1]
  }

  /** The makespan of the graph: no kill is later, and if there is a kill at all, one is that late. */
  ghost predicate IsLength(dag: seq<Node>, length: int) {
    && (forall i :: 0 <= i < |dag| ==> dag[i].tick <= length)
    && (length == 0 || exists row :: LastUse(dag, row, length))
  }

  /** All steps: the loop ends, every step is drawn completely, the ticks respect every dependency within
      a step and from one step to the next, no kill is later than it must be, and `length` is the last
      tick. */
  method Run(q: QrTree) returns (parts: seq<seq<Node>>, length: int)
    requires Ok(q)
    ensures |parts| == Max(Steps(q), 0)
    ensures forall k :: 0 <= k < |parts| ==> StepDrawn(q, k, parts[k])
    ensures Timed(Flat(parts)) && IsLength(Flat(parts), length)
  {
    hide StepDrawn, Timed, Clock, IsLength;
    var next := new int[Rows(q)](i => 0);
    var pos := new int[Rows(q)](i => 0);
    parts := [];
    EmptyGraph(pos[..]);
    var k := 0;
    while k < Steps(q)
      invariant 0 <= k <= Max(Steps(q), 0) && |parts| == k
      invariant forall c :: 0 <= c < k ==> StepDrawn(q, c, parts[c])
      invariant Timed(Flat(parts)) && Clock(Flat(parts), pos[..]) && OnRows(Flat(parts), Rows(q))
    {
      var part := RunStep(q, k, next, pos, Flat(parts));
      DrawnOnRows(q, k, part);
      assert (parts + [part])[..k] == parts;
      parts := parts + [part];
      k := k + 1;
    }
    length := LastTick(pos);
    LastTickIsLength(Flat(parts), pos[..], length);
  }

  ghost predicate OnRows(dag: seq<Node>, rows: int) {
    forall i :: 0 <= i < |dag| ==> 0 <= dag[i].killer < rows
  }

  lemma DrawnOnRows(q: QrTree, k: nat, part: seq<Node>)
    requires AtStep(q, k) && StepDrawn(q, k, part)
    ensures OnRows(part, Rows(q))
  {
    hide TreeAt, PlaceAt;
    forall i | 0 <= i < |part| ensures 0 <= part[i].killer < Rows(q) { assert ByItsKiller(q, k, part[i]); }
  }

  method LastTick(pos: array<int>) returns (length: int)
    ensures length >= 0 && forall m :: 0 <= m < pos.Length ==> pos[m] <= length
    ensures length == 0 || exists m :: 0 <= m < pos.Length && pos[m] == length
  {
    length := 0;
    var m := 0;
    while m < pos.Length
      invariant 0 <= m <= pos.Length && length >= 0
      invariant forall r :: 0 <= r < m ==> pos[r] <= length
      invariant length == 0 || exists r :: 0 <= r < m && pos[r] == length
    {
      length := Max(length, pos[m]);
      m := m + 1;
    }
  }

  lemma LastTickIsLength(dag: seq<Node>, pos: seq<int>, length: int)
    requires Clock(dag, pos) && OnRows(dag, |pos|)
    requires forall m :: 0 <= m < |pos| ==> pos[m] <= length
    requires length == 0 || exists m :: 0 <= m < |pos| && pos[m] == length
    ensures IsLength(dag, length)
  {
    forall i | 0 <= i < |dag| ensures dag[i].tick <= length {
      var row := dag[i].killer;
      assert Involves(dag[i], row) && dag[i].tick <= pos[row];
    }
  }

  lemma EmptyGraph(pos: seq<int>)
    requires forall m :: 0 <= m < |pos| ==> pos[m] == 0
    ensures Timed([]) && Clock([], pos) && OnRows([], |pos|)
  {
  }
}
