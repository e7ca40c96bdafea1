/** The falling-letters game: the node pool and doubly linked list of
    game/include/adt/linklist.h, the letters of game/src/typing/effect.c, and the
    clock loop of game/src/typing/game.c that drives them. */
module Typing {
  import opened Arithmetic
  import opened Chains

  const SIZE: nat := 1000
  const SCR_WIDTH: nat := 320
  const SCR_HEIGHT: real := 200.0
  const HZ: nat := 100
  const CHARACTER_PER_SECOND: nat := 3
  const UPDATE_PER_SECOND: nat := 100
  const KEYS: nat := 26

  datatype Letter = Letter(x: real, y: int, text: nat, v: real)

  datatype Node = Node(prev: int, next: int, letter: Letter)

  // ---------------------------------------------------------------------
  // One step of the clock, on the letters alone
  // ---------------------------------------------------------------------

  function Moved(l: Letter): Letter {
    l.(x := l.x + l.v)
  }

  predicate Above(l: Letter) {
    l.x < 0.0
  }

  predicate Below(l: Letter) {
    l.x + 7.9 > SCR_HEIGHT
  }

  predicate OnScreen(l: Letter) {
    !Above(l) && !Below(l)
  }

  /** The letters still on the screen after a step, in the same order. */
  function Survivors(ls: seq<Letter>): seq<Letter> {
    if ls == [] then []
    else (if OnScreen(Moved(ls[0])) then [Moved(ls[0])] else []) + Survivors(ls[1..])
  }

  function Hits(ls: seq<Letter>): nat {
    if ls == [] then 0 else (if Above(Moved(ls[0])) then 1 else 0) + Hits(ls[1..])
  }

  function Misses(ls: seq<Letter>): nat {
    if ls == [] then 0
    else (if Below(Moved(ls[0])) && !Above(Moved(ls[0])) then 1 else 0) + Misses(ls[1..])
  }

  /** No letter is lost or counted twice. */
  lemma {:induction false} Conserved(ls: seq<Letter>)
    ensures |Survivors(ls)| + Hits(ls) + Misses(ls) == |ls|
  {
    if ls != [] {
      Conserved(ls[1..]);
    }
  }

  /** A letter falls by half a unit a step until it is hit, then rises by three. */
  predicate Sound(l: Letter) {
    OnScreen(l) && l.text < KEYS && (l.v == 0.5 || l.v == -3.0)
  }

  /** A new letter: every one falls at the same speed. */
  predicate Fresh(l: Letter) {
    Sound(l) && l.x == 0.0 && l.v == 0.5 && 8 <= l.y <= SCR_WIDTH - 16 && l.y % 8 == 0
  }

  /** More steps than the letter can still make, whenever it is hit. */
  function Patience(l: Letter): real {
    if l.v > 0.0 then 2.0 * (192.1 - l.x) + 64.1 else l.x / 3.0
  }

  lemma StepUsesPatience(l: Letter)
    requires Sound(l)
    ensures Patience(l) >= 0.0
    ensures OnScreen(Moved(l)) ==> Sound(Moved(l)) && Patience(Moved(l)) == Patience(l) - 1.0
  {
  }

  const PERIOD: nat := HZ / CHARACTER_PER_SECOND

  /** Letters are created PERIOD steps apart, and gap steps have passed since the
      newest: so the j-th newest letter has used that much of its patience. */
  ghost predicate Spaced(ls: seq<Letter>, gap: nat) {
    forall j :: 0 <= j < |ls| ==>
      Sound(ls[j]) && Patience(ls[j]) + (PERIOD * j) as real + gap as real <= 448.3
  }

  lemma FewLetters(ls: seq<Letter>, gap: nat)
    requires Spaced(ls, gap)
    ensures |ls| <= 14
  {
    if |ls| > 14 {
      StepUsesPatience(ls[14]);
    }
  }

  lemma {:induction false} SurvivorsOrigin(ls: seq<Letter>, j: nat) returns (i: nat)
    requires j < |Survivors(ls)|
    ensures j <= i < |ls| && Survivors(ls)[j] == Moved(ls[i]) && OnScreen(Moved(ls[i]))
  {
    if OnScreen(Moved(ls[0])) {
      if j == 0 {
        i := 0;
      } else {
        i := SurvivorsOrigin(ls[1..], j - 1);
        i := i + 1;
      }
    } else {
      i := SurvivorsOrigin(ls[1..], j);
      i := i + 1;
    }
  }

  lemma LaterWaits(j: nat, i: nat)
    requires j <= i
    ensures (PERIOD * j) as real <= (PERIOD * i) as real
  {
  }

  lemma StepKeepsSpacing(ls: seq<Letter>, gap: nat)
    requires Spaced(ls, gap)
    ensures Spaced(Survivors(ls), gap + 1)
  {
    var after := Survivors(ls);
    forall j | 0 <= j < |after|
      ensures Sound(after[j]) && Patience(after[j]) + (PERIOD * j) as real + (gap + 1) as real <= 448.3
    {
      var i := SurvivorsOrigin(ls, j);
      StepUsesPatience(ls[i]);
      LaterWaits(j, i);
      assert Patience(ls[i]) + (PERIOD * i) as real + gap as real <= 448.3;
    }
  }

  lemma CreateKeepsSpacing(ls: seq<Letter>, l: Letter, gap: nat)
    requires Spaced(ls, gap) && (ls == [] || gap == PERIOD)
    requires Fresh(l)
    ensures Spaced([l] + ls, 0)
  {
    var after := [l] + ls;
    forall j | 0 <= j < |after|
      ensures Sound(after[j]) && Patience(after[j]) + (PERIOD * j) as real <= 448.3
    {
      if j > 0 {
        assert after[j] == ls[j - 1];
      }
    }
  }

  /** Hitting a letter turns it upwards. */
  function HitAt(ls: seq<Letter>, k: nat): seq<Letter>
    requires k < |ls|
  {
    ls[k := ls[k].(v := -3.0)]
  }

  lemma HitKeepsSpacing(ls: seq<Letter>, k: nat, gap: nat)
    requires Spaced(ls, gap) && k < |ls|
    ensures Spaced(HitAt(ls, k), gap)
  {
    assert Sound(ls[k]);
  }

  /** update_keypress looks for a falling letter whose key is down. */
  predicate Candidate(l: Letter, keys: seq<bool>)
    requires |keys| == KEYS
  {
    l.text < KEYS && l.v > 0.0 && l.x > -100.0 && keys[l.text]
  }

  /** The lowest candidate among the first n, and the newest of those; n if there is none. */
  ghost predicate Lowest(ls: seq<Letter>, keys: seq<bool>, n: nat, k: nat)
    requires n <= |ls| && |keys| == KEYS
  {
    && k <= n
    && (k < n ==> Candidate(ls[k], keys))
    && (forall j :: 0 <= j < n && Candidate(ls[j], keys) ==>
          k < n && (if j < k then ls[j].x < ls[k].x else ls[j].x <= ls[k].x))
  }

  /** Letters that have not been hit. */
  function Falling(ls: seq<Letter>): nat {
    if ls == [] then 0 else (if ls[0].v > 0.0 then 1 else 0) + Falling(ls[1..])
  }

  lemma {:induction false} HitStopsFalling(ls: seq<Letter>, k: nat)
    requires k < |ls| && ls[k].v > 0.0
    ensures Falling(HitAt(ls, k)) == Falling(ls) - 1
  {
    if k == 0 {
      assert HitAt(ls, 0)[1..] == ls[1..];
    } else {
      HitStopsFalling(ls[1..], k - 1);
      assert HitAt(ls, k)[1..] == HitAt(ls[1..], k - 1);
    }
  }

  /** Steps since the newest letter was created, when now steps have been made. */
  function Gap(now: nat): nat {
    if now == 0 then 0 else (now - 1) % PERIOD + 1
  }

  /** Letters created in the first now steps. */
  function CreatedBy(now: nat): nat {
    (now + PERIOD - 1) / PERIOD
  }

  lemma GapStep(now: nat)
    ensures now % PERIOD == 0 ==> (now == 0 || Gap(now) == PERIOD) && Gap(now + 1) == 1
    ensures now % PERIOD != 0 ==> Gap(now + 1) == Gap(now) + 1
  {
    if now > 0 {
      GapParts(now / PERIOD, now % PERIOD, now);
    }
  }

  lemma GapParts(q: nat, r: nat, now: nat)
    requires now == PERIOD * q + r && r < PERIOD && now > 0
    ensures Gap(now) == if r == 0 then PERIOD else r
  {
    OneBefore(PERIOD, q, r, now);
  }

  lemma OneBefore(d: nat, q: nat, r: nat, now: nat)
    requires r < d && now > 0 && now == d * q + r
    ensures (now - 1) % d == if r == 0 then d - 1 else r - 1
  {
    if r > 0 {
      DivisionUnique(d, q, r - 1);
    } else {
      DivisionUnique(d, q - 1, d - 1);
      assert d * q == d * (q - 1) + d;
    }
  }

  lemma EveryStep(now: nat)
    ensures now % (HZ / UPDATE_PER_SECOND) == 0
  {
  }

  lemma CreatedStep(now: nat)
    ensures CreatedBy(now + 1) == CreatedBy(now) + if now % PERIOD == 0 then 1 else 0
  {
    var q, r := now / PERIOD, now % PERIOD;
    DivisionUnique(PERIOD, q + 1, r);
    assert now + PERIOD == PERIOD * (q + 1) + r;
    if r > 0 {
      DivisionUnique(PERIOD, q + 1, r - 1);
      assert now + PERIOD - 1 == PERIOD * (q + 1) + (r - 1);
    } else {
      DivisionUnique(PERIOD, q, PERIOD - 1);
      assert now + PERIOD - 1 == PERIOD * q + (PERIOD - 1);
    }
  }

  // ---------------------------------------------------------------------
  // The pool
  // ---------------------------------------------------------------------

  function Nexts(pool: seq<Node>): seq<int> {
    Links(pool, (n: Node) => n.next)
  }

  function Before(ids: seq<int>, k: nat): int
    requires k < |ids|
  {
    if k == 0 then NULL else ids[k - 1]
  }

  ghost predicate BackLink(pool: seq<Node>, ids: seq<int>, k: nat)
    requires k < |ids| && 0 <= ids[k] < |pool|
  {
    pool[ids[k]].prev == Before(ids, k)
  }

  /** The nodes ids form a doubly linked list from first. */
  ghost predicate Doubly(pool: seq<Node>, first: int, ids: seq<int>) {
    && Linked(Nexts(pool), first, ids)
    && forall k :: 0 <= k < |ids| ==> BackLink(pool, ids, k)
  }

  /** Live and spare nodes share nothing and cover the pool; the last node of the
      pool is the last spare one and never leaves. */
  ghost predicate Partition(pool: seq<Node>, live: seq<int>, spare: seq<int>) {
    && |pool| == SIZE + 1
    && Distinct(live) && Distinct(spare)
    && |live| + |spare| == SIZE + 1
    && (forall i :: 0 <= i <= SIZE ==> (i in live <==> i !in spare))
    && (forall i :: i in live || i in spare ==> 0 <= i <= SIZE)
    && |spare| > 0 && spare[|spare| - 1] == SIZE
    && pool[SIZE].next == NULL
  }

  ghost function Letters(pool: seq<Node>, ids: seq<int>): (r: seq<Letter>)
    requires forall k :: 0 <= k < |ids| ==> 0 <= ids[k] < |pool|
    ensures |r| == |ids|
  {
    seq(|ids|, k requires 0 <= k < |ids| => pool[ids[k]].letter)
  }

  lemma Allocated(pool: seq<Node>, live: seq<int>, spare: seq<int>)
    requires Partition(pool, live, spare) && |spare| > 1
    ensures Partition(pool, [spare[0]] + live, spare[1..]) && spare[0] !in live && spare[0] != SIZE
  {
    assert spare == [spare[0]] + spare[1..] && spare[0] in spare;
    assert Distinct(spare[1..]) && spare[0] !in spare[1..];
    assert forall i :: i in spare[1..] ==> i in spare;
    assert Distinct([spare[0]] + live);
  }

  lemma Released(pool: seq<Node>, live: seq<int>, spare: seq<int>, k: nat)
    requires Partition(pool, live, spare) && k < |live|
    ensures Partition(pool, Cut(live, k), [live[k]] + spare) && live[k] != SIZE
  {
    CutMembers(live, k);
    assert live[k] in live;
    assert SIZE in spare;
    assert Distinct([live[k]] + spare);
  }

  lemma Redirected(pool: seq<Node>, pool': seq<Node>, first: int, live: seq<int>, k: nat)
    requires Doubly(pool, first, live) && k < |live| && Distinct(live) && |pool'| == |pool|
    requires forall i :: i in live && i != live[k] ==>
               && 0 <= i < |pool|
               && pool'[i].next == (if k > 0 && i == live[k - 1] then pool[live[k]].next else pool[i].next)
               && pool'[i].prev == (if k + 1 < |live| && i == live[k + 1] then Before(live, k) else pool[i].prev)
    ensures Doubly(pool', if k == 0 then pool[live[0]].next else first, Cut(live, k))
  {
    var cut := Cut(live, k);
    var nexts := if k == 0 then Nexts(pool) else Nexts(pool)[live[k - 1] := Nexts(pool)[live[k]]];
    CutLinked(Nexts(pool), nexts, first, live, k);
    CutMembers(live, k);
    Framed(nexts, Nexts(pool'), if k == 0 then pool[live[0]].next else first, cut);
    forall j | 0 <= j < |cut| ensures BackLink(pool', cut, j) {
      var i := if j < k then j else j + 1;
      assert cut[j] == live[i] && live[i] in live && BackLink(pool, live, i);
      assert j == k ==> live[i] == live[k + 1];
    }
  }

  lemma Prepended(pool: seq<Node>, pool': seq<Node>, first: int, live: seq<int>, p: int)
    requires Doubly(pool, first, live) && 0 <= p < |pool| == |pool'| && p !in live && Distinct(live)
    requires pool'[p].next == first && pool'[p].prev == NULL
    requires forall i :: i in live ==>
               && 0 <= i < |pool|
               && pool'[i].next == pool[i].next
               && pool'[i].prev == (if i == first then p else pool[i].prev)
    ensures Doubly(pool', p, [p] + live)
  {
    var nexts := Nexts(pool)[p := first];
    Pushed(Nexts(pool), nexts, first, live, p);
    Framed(nexts, Nexts(pool'), p, [p] + live);
    forall k | 0 <= k <= |live| ensures BackLink(pool', [p] + live, k) {
      assert k > 0 ==> live[k - 1] in live && BackLink(pool, live, k - 1);
    }
  }

  lemma AllSpare(pool: seq<Node>)
    requires |pool| == SIZE + 1 && pool[SIZE].next == NULL
    ensures Partition(pool, [], seq(SIZE + 1, i => i))
  {
    var all := seq(SIZE + 1, i => i);
    forall i | 0 <= i <= SIZE ensures i in all {
      assert all[i] == i;
    }
  }

  /** The first spare node has no successor exactly when it is the last of the pool. */
  lemma OnlyLast(pool: seq<Node>, p: int, live: seq<int>, spare: seq<int>)
    requires Partition(pool, live, spare) && Linked(Nexts(pool), p, spare)
    ensures 0 <= p <= SIZE && (pool[p].next == NULL <==> |live| == SIZE) && p !in live
  {
    assert Link(Nexts(pool), spare, 0) && spare[0] in spare;
  }

  /** Nodes that are not on the list may change. */
  lemma SameList(pool: seq<Node>, pool': seq<Node>, first: int, ids: seq<int>)
    requires Doubly(pool, first, ids) && |pool| == |pool'|
    requires forall i :: i in ids ==> 0 <= i < |pool| && pool'[i].next == pool[i].next && pool'[i].prev == pool[i].prev
    ensures Doubly(pool', first, ids)
  {
    Framed(Nexts(pool), Nexts(pool'), first, ids);
    forall k | 0 <= k < |ids| ensures BackLink(pool', ids, k) {
      assert ids[k] in ids && BackLink(pool, ids, k);
    }
  }

  /** Changing letters but no links. */
  lemma Repainted(pool: seq<Node>, pool': seq<Node>, freeHead: int, head: int, live: seq<int>, spare: seq<int>)
    requires Partition(pool, live, spare) && Doubly(pool, head, live) && Linked(Nexts(pool), freeHead, spare)
    requires |pool'| == |pool|
    requires forall i :: 0 <= i < |pool| ==> pool'[i].next == pool[i].next && pool'[i].prev == pool[i].prev
    ensures Partition(pool', live, spare) && Doubly(pool', head, live) && Linked(Nexts(pool'), freeHead, spare)
  {
    SameList(pool, pool', head, live);
    Framed(Nexts(pool), Nexts(pool'), freeHead, spare);
  }

  /** A node and its neighbours are different nodes. */
  lemma Neighbours(pool: seq<Node>, first: int, live: seq<int>, k: nat)
    requires Doubly(pool, first, live) && k < |live| && Distinct(live)
    ensures pool[live[k]].prev == Before(live, k) && pool[live[k]].next == At(live, k + 1)
    ensures k > 0 ==> 0 <= live[k - 1] < |pool| && live[k - 1] != live[k]
    ensures k + 1 < |live| ==> 0 <= live[k + 1] < |pool| && live[k + 1] != live[k]
    ensures k > 0 && k + 1 < |live| ==> live[k - 1] != live[k + 1]
    ensures live[k] == first <==> k == 0
  {
    assert Link(Nexts(pool), live, k) && BackLink(pool, live, k);
  }

  lemma LettersPushed(pool: seq<Node>, pool': seq<Node>, live: seq<int>, p: int)
    requires forall j :: 0 <= j < |live| ==> 0 <= live[j] < |pool|
    requires 0 <= p < |pool| == |pool'|
    requires forall i :: i in live ==> 0 <= i < |pool| && pool'[i].letter == pool[i].letter
    ensures forall j :: 0 <= j <= |live| ==> 0 <= ([p] + live)[j] < |pool'|
    ensures Letters(pool', [p] + live)[1..] == Letters(pool, live)
  {
    forall j | 0 <= j < |live| ensures live[j] in live && ([p] + live)[j + 1] == live[j] {
    }
  }

  /** The letters after the k-th node has been taken out. */
  lemma LettersCut(pool: seq<Node>, pool': seq<Node>, live: seq<int>, k: nat)
    requires forall j :: 0 <= j < |live| ==> 0 <= live[j] < |pool| == |pool'|
    requires k < |live| && Distinct(live)
    requires forall i :: i in live && i != live[k] ==> 0 <= i < |pool| && pool'[i].letter == pool[i].letter
    ensures forall j :: 0 <= j < |live| - 1 ==> 0 <= Cut(live, k)[j] < |pool'|
    ensures Letters(pool', Cut(live, k)) == Cut(Letters(pool, live), k)
  {
    var cut := Cut(live, k);
    forall j | 0 <= j < |cut| ensures cut[j] in live && cut[j] != live[k] {
      var i := if j < k then j else j + 1;
      assert cut[j] == live[i] && live[i] in live;
    }
  }

  /** The free list after the k-th live node has been unlinked and put on it. */
  lemma Removed(before: seq<Node>, removed: seq<Node>, live: seq<int>, spare: seq<int>, first: int, k: nat)
    requires Partition(before, live, spare) && Linked(Nexts(before), first, spare) && k < |live|
    requires |removed| == |before|
    requires forall i :: 0 <= i < |before| && i !in live ==> removed[i].next == before[i].next
    ensures 0 <= live[k] < |removed|
    ensures var pool' := removed[live[k] := removed[live[k]].(next := first)];
            Partition(pool', Cut(live, k), [live[k]] + spare) && Linked(Nexts(pool'), live[k], [live[k]] + spare)
  {
    Released(before, live, spare, k);
    assert live[k] in live;
    Framed(Nexts(before), Nexts(removed), first, spare);
    var pool' := removed[live[k] := removed[live[k]].(next := first)];
    Pushed(Nexts(removed), Nexts(pool'), first, spare, live[k]);
    assert SIZE in spare;
  }

  /** The two neighbours of the node are linked to each other, and nothing else differs. */
  ghost predicate Bypassed(before: seq<Node>, removed: seq<Node>, node: int)
    requires 0 <= node < |before| == |removed|
  {
    && removed[node] == before[node]
    && forall i :: 0 <= i < |before| && i != node ==>
         && removed[i].letter == before[i].letter
         && removed[i].next == (if i == before[node].prev then before[node].next else before[i].next)
         && removed[i].prev == (if i == before[node].next then before[node].prev else before[i].prev)
  }

  lemma Discarded(before: seq<Node>, removed: seq<Node>, live: seq<int>, spare: seq<int>, head: int, first: int, k: nat)
    requires Partition(before, live, spare) && Doubly(before, head, live) && Linked(Nexts(before), first, spare)
    requires k < |live| && |removed| == |before| && Bypassed(before, removed, live[k])
    ensures 0 <= live[k] < |removed|
    ensures var pool' := removed[live[k] := removed[live[k]].(next := first)];
            && Partition(pool', Cut(live, k), [live[k]] + spare)
            && Linked(Nexts(pool'), live[k], [live[k]] + spare)
            && Doubly(pool', if k == 0 then before[live[0]].next else head, Cut(live, k))
  {
    Neighbours(before, head, live, k);
    assert k > 0 ==> live[k - 1] in live;
    Removed(before, removed, live, spare, first, k);
    Redirected(before, removed[live[k] := removed[live[k]].(next := first)], head, live, k);
  }

  /** The first k letters have survived the step, the others are still to move. */
  ghost predicate HalfMoved(before: seq<Letter>, now: seq<Letter>, k: nat, hits: int, misses: int) {
    && k <= |now|
    && Survivors(before) == now[..k] + Survivors(now[k..])
    && Hits(before) == hits + Hits(now[k..])
    && Misses(before) == misses + Misses(now[k..])
  }

  lemma OneMore(before: seq<Letter>, now: seq<Letter>, k: nat, hits: int, misses: int)
    requires HalfMoved(before, now, k, hits, misses) && k < |now|
    ensures var l := Moved(now[k]);
            && (OnScreen(l) ==> HalfMoved(before, now[k := l], k + 1, hits, misses))
            && (Above(l) ==> HalfMoved(before, Cut(now, k), k, hits + 1, misses))
            && (!Above(l) && Below(l) ==> HalfMoved(before, Cut(now, k), k, hits, misses + 1))
  {
    var l := Moved(now[k]);
    assert now[k..][0] == now[k] && now[k..][1..] == now[k + 1..];
    assert now[k := l][..k + 1] == now[..k] + [l] && now[k := l][k + 1..] == now[k + 1..];
    assert Cut(now, k)[..k] == now[..k] && Cut(now, k)[k..] == now[k + 1..];
  }

  /** The clock step reached: the latest target, if that is not past already. */
  function Latest(now: nat, targets: seq<nat>): nat {
    if targets == [] then now
    else
      var before, target := Latest(now, targets[..|targets| - 1]), targets[|targets| - 1];
      if before < target then target else before
  }

  // ---------------------------------------------------------------------
  // Runs of the game
  // ---------------------------------------------------------------------

  /** What the game shows, counts and knows of the keyboard. */
  datatype Moment = Moment(letters: seq<Letter>, keys: seq<bool>, hit: nat, miss: nat)

  /** The three operations, and a key going down. */
  datatype Event = Create | Update | Keypress | Press(key: nat)

  ghost predicate AllSound(ls: seq<Letter>) {
    forall j :: 0 <= j < |ls| ==> Sound(ls[j])
  }

  /** update_keypress with target k, or with none. */
  ghost predicate Turns(m: Moment, k: nat, m': Moment)
    requires |m.keys| == KEYS
  {
    && Lowest(m.letters, m.keys, |m.letters|, k)
    && m' == if k < |m.letters|
             then m.(letters := HitAt(m.letters, k), keys := m.keys[m.letters[k].text := false])
             else m
  }

  ghost predicate Follows(m: Moment, e: Event, m': Moment) {
    && |m.keys| == KEYS
    && match e
       case Create =>
         && |m'.letters| > 0 && Fresh(m'.letters[0]) && m'.letters[1..] == m.letters
         && m' == m.(letters := m'.letters, keys := m.keys[m'.letters[0].text := false])
       case Update =>
         m' == m.(letters := Survivors(m.letters), hit := m.hit + Hits(m.letters), miss := m.miss + Misses(m.letters))
       case Keypress => exists k: nat :: Turns(m, k, m')
       case Press(j) => j < KEYS && m' == m.(keys := m.keys[j := true])
  }

  lemma UpdateFollows(m: Moment, m': Moment)
    requires |m.keys| == KEYS && m'.letters == Survivors(m.letters) && m'.keys == m.keys
    requires m'.hit == m.hit + Hits(m.letters) && m'.miss == m.miss + Misses(m.letters)
    ensures Follows(m, Update, m')
  {
  }

  /** The events lead from m to m'. */
  ghost predicate Plays(m: Moment, events: seq<Event>, m': Moment) {
    if events == [] then m' == m
    else
      var before, last := events[..|events| - 1], events[|events| - 1];
      exists mid: Moment :: Plays(m, before, mid) && Follows(mid, last, m')
  }

  lemma PlaysThen(m: Moment, events: seq<Event>, mid: Moment, e: Event, m': Moment)
    requires Plays(m, events, mid) && Follows(mid, e, m')
    ensures Plays(m, events + [e], m')
  {
    assert (events + [e])[..|events|] == events;
  }

  lemma {:induction false} PlaysConcat(m: Moment, a: seq<Event>, mid: Moment, b: seq<Event>, m': Moment)
    requires Plays(m, a, mid) && Plays(mid, b, m')
    ensures Plays(m, a + b, m')
    decreases |b|
  {
    if b == [] {
      assert a + b == a;
    } else {
      var n := |b| - 1;
      var last: Moment :| Plays(mid, b[..n], last) && Follows(last, b[n], m');
      PlaysConcat(m, a, mid, b[..n], last);
      PlaysThen(m, a + b[..n], last, b[n], m');
      assert a + b == a + b[..n] + [b[n]];
    }
  }

  function Creates(events: seq<Event>): nat {
    if events == [] then 0
    else Creates(events[..|events| - 1]) + if events[|events| - 1].Create? then 1 else 0
  }

  lemma OneMoreEvent(events: seq<Event>, n: nat)
    requires n < |events|
    ensures events[..n + 1] == events[..n] + [events[n]]
    ensures Creates(events[..n + 1]) == Creates(events[..n]) + if events[n].Create? then 1 else 0
  {
    assert events[..n + 1][..n] == events[..n];
  }

  // ---------------------------------------------------------------------
  // Every pressed key hits its letter, and nothing else does
  // ---------------------------------------------------------------------

  predicate KeysOnly(events: seq<Event>) {
    forall i :: 0 <= i < |events| ==> events[i].Keypress? || events[i].Press?
  }

  ghost predicate NoCandidate(m: Moment) {
    && |m.keys| == KEYS
    && forall j :: 0 <= j < |m.letters| ==> !Candidate(m.letters[j], m.keys)
  }

  ghost predicate Keyed(m: Moment, events: seq<Event>, m': Moment) {
    KeysOnly(events) && Plays(m, events, m')
  }

  lemma KeyedConcat(m: Moment, a: seq<Event>, mid: Moment, b: seq<Event>, m': Moment)
    requires Keyed(m, a, mid) && Keyed(mid, b, m')
    ensures Keyed(m, a + b, m')
  {
    PlaysConcat(m, a, mid, b, m');
  }

  /** update_keypress has been called until it found nothing. */
  ghost predicate Serves(m: Moment, events: seq<Event>, m': Moment) {
    Keyed(m, events, m') && NoCandidate(m')
  }

  /** Of the falling letters with its text the k-th is the lowest, and the newest of those. */
  ghost predicate LowestOfText(ls: seq<Letter>, k: nat) {
    && k < |ls| && ls[k].v > 0.0
    && forall j :: 0 <= j < |ls| && ls[j].text == ls[k].text && ls[j].v > 0.0 ==>
         if j < k then ls[j].x < ls[k].x else ls[j].x <= ls[k].x
  }

  predicate Turned(l: Letter, l': Letter) {
    l.v > 0.0 && l' == l.(v := -3.0)
  }

  /** Some falling letters have been turned, and nothing else has changed. */
  ghost predicate SomeTurned(ls: seq<Letter>, ls': seq<Letter>) {
    && |ls'| == |ls|
    && forall j :: 0 <= j < |ls| ==> ls'[j] == ls[j] || Turned(ls[j], ls'[j])
  }

  /** How many letters of a text have been turned. */
  function TurnedOf(ls: seq<Letter>, ls': seq<Letter>, text: nat): nat
    requires |ls| == |ls'|
  {
    if ls == [] then 0
    else (if ls[0].text == text && Turned(ls[0], ls'[0]) then 1 else 0) + TurnedOf(ls[1..], ls'[1..], text)
  }

  function Presses(events: seq<Event>, key: nat): nat {
    if events == [] then 0
    else Presses(events[..|events| - 1], key) + if events[|events| - 1] == Press(key) then 1 else 0
  }

  function Down(keys: seq<bool>, key: nat): nat {
    if key < |keys| && keys[key] then 1 else 0
  }

  lemma {:induction false} NoneTurned(ls: seq<Letter>, text: nat)
    ensures TurnedOf(ls, ls, text) == 0
  {
    if ls != [] {
      NoneTurned(ls[1..], text);
    }
  }

  lemma {:induction false} OneTurned(ls: seq<Letter>, mid: seq<Letter>, k: nat, text: nat)
    requires SomeTurned(ls, mid) && k < |mid| && mid[k].v > 0.0
    ensures SomeTurned(ls, HitAt(mid, k))
    ensures TurnedOf(ls, HitAt(mid, k), text) == TurnedOf(ls, mid, text) + if ls[k].text == text then 1 else 0
  {
    if k == 0 {
      assert HitAt(mid, 0)[1..] == mid[1..];
    } else {
      OneTurned(ls[1..], mid[1..], k - 1, text);
      assert HitAt(mid, k)[1..] == HitAt(mid[1..], k - 1);
    }
  }

  /** Every letter that is hit takes a key down of its own, and a key that is
      released has hit one. */
  ghost predicate Accounted(m: Moment, events: seq<Event>, m': Moment, key: nat) {
    && SomeTurned(m.letters, m'.letters) && |m.keys| == |m'.keys| == KEYS
    && TurnedOf(m.letters, m'.letters, key) + Down(m'.keys, key) <= Down(m.keys, key) + Presses(events, key)
    && (Down(m.keys, key) > Down(m'.keys, key) ==> TurnedOf(m.letters, m'.letters, key) > 0)
  }

  lemma {:induction false} KeysAccounted(m: Moment, events: seq<Event>, m': Moment, key: nat)
    requires KeysOnly(events) && Plays(m, events, m') && |m.keys| == KEYS
    ensures Accounted(m, events, m', key) && m'.hit == m.hit && m'.miss == m.miss
    decreases |events|
  {
    if events == [] {
      NoneTurned(m.letters, key);
    } else {
      var n := |events| - 1;
      var mid: Moment :| Plays(m, events[..n], mid) && Follows(mid, events[n], m');
      KeysAccounted(m, events[..n], mid, key);
      if events[n].Keypress? {
        var k: nat :| Turns(mid, k, m');
        TurnAccounted(m, events, mid, m', key, k);
      } else {
        PressAccounted(m, events, mid, m', key);
      }
    }
  }

  lemma TurnAccounted(m: Moment, events: seq<Event>, mid: Moment, m': Moment, key: nat, k: nat)
    requires events != [] && events[|events| - 1].Keypress?
    requires Accounted(m, events[..|events| - 1], mid, key) && Turns(mid, k, m')
    ensures Accounted(m, events, m', key)
  {
    if k < |mid.letters| {
      assert Candidate(mid.letters[k], mid.keys);
      OneTurned(m.letters, mid.letters, k, key);
    }
  }

  lemma PressAccounted(m: Moment, events: seq<Event>, mid: Moment, m': Moment, key: nat)
    requires events != [] && events[|events| - 1].Press?
    requires Accounted(m, events[..|events| - 1], mid, key) && Follows(mid, events[|events| - 1], m')
    ensures Accounted(m, events, m', key)
  {
  }

  /** Until the lowest letter of a pressed key's text is turned, the key stays down
      and the letters of that text stay as they are. */
  ghost predicate Awaits(m: Moment, m': Moment, k: nat)
    requires k < |m.letters| && |m.letters| == |m'.letters|
  {
    || Turned(m.letters[k], m'.letters[k])
    || (&& Down(m'.keys, m.letters[k].text) == 1
        && forall j :: 0 <= j < |m.letters| && m.letters[j].text == m.letters[k].text ==> m'.letters[j] == m.letters[j])
  }

  lemma {:induction false} KeyAwaits(m: Moment, events: seq<Event>, m': Moment, k: nat)
    requires KeysOnly(events) && Plays(m, events, m') && |m.keys| == KEYS && AllSound(m.letters)
    requires LowestOfText(m.letters, k) && m.keys[m.letters[k].text]
    ensures |m'.letters| == |m.letters| && Awaits(m, m', k)
    decreases |events|
  {
    if events != [] {
      var n := |events| - 1;
      var mid: Moment :| Plays(m, events[..n], mid) && Follows(mid, events[n], m');
      KeyAwaits(m, events[..n], mid, k);
      KeysAccounted(m, events[..n], mid, 0);
      if events[n].Keypress? {
        var i: nat :| Turns(mid, i, m');
        TurnAwaits(m, mid, m', k, i);
      }
    }
  }

  lemma TurnAwaits(m: Moment, mid: Moment, m': Moment, k: nat, i: nat)
    requires |m.keys| == |mid.keys| == KEYS && AllSound(m.letters) && SomeTurned(m.letters, mid.letters)
    requires LowestOfText(m.letters, k) && Awaits(m, mid, k) && Turns(mid, i, m')
    ensures Awaits(m, m', k)
  {
    if !Turned(m.letters[k], mid.letters[k]) && i < |mid.letters| && mid.letters[i].text == m.letters[k].text {
      assert Sound(m.letters[k]) && Candidate(mid.letters[k], mid.keys);
      assert Candidate(mid.letters[i], mid.keys) && mid.letters[i] == m.letters[i];
      assert i == k;
    }
  }

  /** When nothing more is found, every key that was down at the start has hit the
      lowest falling letter of its text. */
  lemma PressedKeyHits(m: Moment, events: seq<Event>, m': Moment, k: nat)
    requires Serves(m, events, m') && |m.keys| == KEYS && AllSound(m.letters)
    requires LowestOfText(m.letters, k) && m.keys[m.letters[k].text]
    ensures |m'.letters| == |m.letters| && Turned(m.letters[k], m'.letters[k])
  {
    KeyAwaits(m, events, m', k);
    assert Sound(m.letters[k]);
    assert !Candidate(m'.letters[k], m'.keys);
  }

  /** What serving the keys achieves. */
  ghost predicate ServedRight(m: Moment, events: seq<Event>, m': Moment) {
    && |m.keys| == KEYS
    && (forall key {:trigger Accounted(m, events, m', key)} :: 0 <= key < KEYS ==> Accounted(m, events, m', key))
    && |m'.letters| == |m.letters|
    && (forall k :: 0 <= k < |m.letters| && LowestOfText(m.letters, k) && Down(m.keys, m.letters[k].text) == 1 ==>
          Turned(m.letters[k], m'.letters[k]))
    && m'.hit == m.hit && m'.miss == m.miss && NoCandidate(m')
  }

  lemma ServesRight(m: Moment, events: seq<Event>, m': Moment)
    requires Serves(m, events, m') && |m.keys| == KEYS && AllSound(m.letters)
    ensures ServedRight(m, events, m')
  {
    forall key | 0 <= key < KEYS ensures Accounted(m, events, m', key) {
      KeysAccounted(m, events, m', key);
    }
    KeysAccounted(m, events, m', 0);
    forall k | 0 <= k < |m.letters| && LowestOfText(m.letters, k) && Down(m.keys, m.letters[k].text) == 1
      ensures Turned(m.letters[k], m'.letters[k])
    {
      PressedKeyHits(m, events, m', k);
    }
  }

  // ---------------------------------------------------------------------
  // The score
  // ---------------------------------------------------------------------

  /** Letters that have been hit and not left yet. */
  function Rising(ls: seq<Letter>): nat {
    if ls == [] then 0 else (if ls[0].v < 0.0 then 1 else 0) + Rising(ls[1..])
  }

  function KeysDown(keys: seq<bool>): nat {
    if keys == [] then 0 else (if keys[0] then 1 else 0) + KeysDown(keys[1..])
  }

  function AllPresses(events: seq<Event>): nat {
    if events == [] then 0
    else AllPresses(events[..|events| - 1]) + if events[|events| - 1].Press? then 1 else 0
  }

  /** Letters that have been hit leave as hits, and the others as misses. */
  lemma {:induction false} Fates(ls: seq<Letter>)
    requires AllSound(ls)
    ensures Hits(ls) + Rising(Survivors(ls)) == Rising(ls)
    ensures Misses(ls) + Falling(Survivors(ls)) == Falling(ls)
  {
    if ls != [] {
      assert Sound(ls[0]);
      Fates(ls[1..]);
      FirstFate(ls);
    }
  }

  lemma FirstFate(ls: seq<Letter>)
    requires ls != []
    ensures var l, rest := Moved(ls[0]), Survivors(ls[1..]);
            && Rising(Survivors(ls)) == Rising(rest) + (if OnScreen(l) && l.v < 0.0 then 1 else 0)
            && Falling(Survivors(ls)) == Falling(rest) + (if OnScreen(l) && l.v > 0.0 then 1 else 0)
  {
    FirstCounts(Moved(ls[0]), Survivors(ls[1..]));
  }

  lemma FirstCounts(l: Letter, rest: seq<Letter>)
    ensures Rising([l] + rest) == Rising(rest) + (if l.v < 0.0 then 1 else 0)
    ensures Falling([l] + rest) == Falling(rest) + (if l.v > 0.0 then 1 else 0)
    ensures [] + rest == rest
  {
    assert ([l] + rest)[1..] == rest;
  }

  lemma {:induction false} HitRises(ls: seq<Letter>, k: nat)
    requires k < |ls| && ls[k].v > 0.0
    ensures Rising(HitAt(ls, k)) == Rising(ls) + 1
  {
    if k == 0 {
      assert HitAt(ls, 0)[1..] == ls[1..];
    } else {
      HitRises(ls[1..], k - 1);
      assert HitAt(ls, k)[1..] == HitAt(ls[1..], k - 1);
    }
  }

  lemma {:induction false} KeySet(keys: seq<bool>, j: nat, down: bool)
    requires j < |keys|
    ensures KeysDown(keys[j := down]) == KeysDown(keys) - (if keys[j] then 1 else 0) + (if down then 1 else 0)
  {
    if j == 0 {
      assert keys[0 := down][1..] == keys[1..];
    } else {
      KeySet(keys[1..], j - 1, down);
      assert keys[j := down][1..] == keys[1..][j - 1 := down];
    }
  }

  /** Hits made, hits on their way and keys that may still hit. */
  function Earned(m: Moment): nat {
    m.hit + Rising(m.letters) + KeysDown(m.keys)
  }

  lemma FollowsSound(m: Moment, e: Event, m': Moment)
    requires Follows(m, e, m') && AllSound(m.letters)
    ensures AllSound(m'.letters) && |m'.keys| == KEYS
  {
    match e
    case Create => assert m'.letters == [m'.letters[0]] + m.letters;
    case Update => SoundSurvive(m.letters);
    case Keypress =>
      var k: nat :| Turns(m, k, m');
      assert k < |m.letters| ==> Sound(m.letters[k]);
    case Press(_) =>
  }

  lemma FollowsEarned(m: Moment, e: Event, m': Moment)
    requires Follows(m, e, m') && AllSound(m.letters)
    ensures Earned(m') <= Earned(m) + if e.Press? then 1 else 0
    ensures m'.miss + Falling(m'.letters) <= m.miss + Falling(m.letters) + if e.Create? then 1 else 0
  {
    match e
    case Create =>
      assert m'.letters == [m'.letters[0]] + m.letters;
      KeySet(m.keys, m'.letters[0].text, false);
    case Update =>
      Fates(m.letters);
    case Keypress =>
      var k: nat :| Turns(m, k, m');
      if k < |m.letters| {
        HitRises(m.letters, k);
        HitStopsFalling(m.letters, k);
        KeySet(m.keys, m.letters[k].text, false);
      }
    case Press(j) => KeySet(m.keys, j, true);
  }

  /** No hit without a key: in every run hits are at most those that were on their
      way, the keys that were down, and the keys pressed. */
  lemma {:induction false} HitsAreTyped(m: Moment, events: seq<Event>, m': Moment)
    requires Plays(m, events, m') && AllSound(m.letters)
    ensures AllSound(m'.letters)
    ensures Earned(m') <= Earned(m) + AllPresses(events)
    ensures m'.miss + Falling(m'.letters) <= m.miss + Falling(m.letters) + Creates(events)
    decreases |events|
  {
    if events != [] {
      var n := |events| - 1;
      var mid: Moment :| Plays(m, events[..n], mid) && Follows(mid, events[n], m');
      HitsAreTyped(m, events[..n], mid);
      FollowsSound(mid, events[n], m');
      FollowsEarned(mid, events[n], m');
    }
  }

  // ---------------------------------------------------------------------
  // The clock loop
  // ---------------------------------------------------------------------

  /** The operations of one clock step. */
  function Tick(now: nat): seq<Event> {
    (if now % PERIOD == 0 then [Create] else []) + [Update]
  }

  function Schedule(now: nat, later: nat): seq<Event> {
    if later <= now then [] else Schedule(now, later - 1) + Tick(later - 1)
  }

  /** The events other than keys going down. */
  function Clocked(events: seq<Event>): seq<Event> {
    if events == [] then []
    else
      Clocked(events[..|events| - 1]) + if events[|events| - 1].Press? then [] else [events[|events| - 1]]
  }

  lemma {:induction false} ClockedConcat(a: seq<Event>, b: seq<Event>)
    ensures Clocked(a + b) == Clocked(a) + Clocked(b)
    decreases |b|
  {
    if b == [] {
      assert a + b == a;
    } else {
      ClockedConcat(a, b[..|b| - 1]);
      assert (a + b)[..|a + b| - 1] == a + b[..|b| - 1];
    }
  }

  /** Nothing but keys going down. */
  ghost predicate Pressed(m: Moment, events: seq<Event>, m': Moment) {
    && Plays(m, events, m') && m' == m.(keys := m'.keys)
    && KeysOnly(events) && Clocked(events) == []
  }

  lemma PressedThen(m: Moment, events: seq<Event>, mid: Moment, j: nat, m': Moment)
    requires Pressed(m, events, mid) && j < KEYS == |mid.keys| && m' == mid.(keys := mid.keys[j := true])
    ensures Pressed(m, events + [Press(j)], m')
  {
    PlaysThen(m, events, mid, Press(j), m');
    PressNotClocked(events, j);
  }

  lemma PressNotClocked(events: seq<Event>, j: nat)
    ensures Clocked(events + [Press(j)]) == Clocked(events)
    ensures KeysOnly(events) ==> KeysOnly(events + [Press(j)])
  {
    assert (events + [Press(j)])[..|events|] == events;
  }

  ghost predicate Ticks(m: Moment, events: seq<Event>, now: nat, later: nat, m': Moment) {
    Plays(m, events, m') && Clocked(events) == Schedule(now, later)
  }

  /** One round of main_loop: the keys are served, then the missed clock steps are made up for. */
  ghost predicate GameRound(m: Moment, now: nat, later: nat, m': Moment) {
    exists served: Moment, keyed: seq<Event>, clocked: seq<Event> ::
      Serves(m, keyed, served) && Ticks(served, clocked, now, later, m')
  }

  lemma PressedTick(m: Moment, pressed: seq<Event>, middle: Moment, now: nat, m': Moment)
    requires Pressed(m, pressed, middle) && Plays(middle, Tick(now), m')
    ensures Ticks(m, pressed + Tick(now), now, now + 1, m')
  {
    PlaysConcat(m, pressed, middle, Tick(now), m');
    ClockedConcat(pressed, Tick(now));
    ClockedTick(now);
  }

  lemma TicksThen(m: Moment, events: seq<Event>, since: nat, now: nat, mid: Moment, more: seq<Event>, m': Moment)
    requires since <= now && Ticks(m, events, since, now, mid) && Ticks(mid, more, now, now + 1, m')
    ensures Ticks(m, events + more, since, now + 1, m')
  {
    PlaysConcat(m, events, mid, more, m');
    ClockedConcat(events, more);
    assert Schedule(now, now) == [];
  }

  lemma StepPlays(m: Moment, events: seq<Event>, mid: Moment, now: nat, m': Moment)
    requires Plays(m, events, mid) && Follows(mid, Update, m')
    requires events == if now % PERIOD == 0 then [Create] else []
    ensures Plays(m, Tick(now), m')
  {
    PlaysThen(m, events, mid, Update, m');
  }

  lemma ClockedTick(now: nat)
    ensures Clocked(Tick(now)) == Tick(now)
  {
    assert Clocked([Update]) == [Update] by {
      assert [Update][..0] == [];
    }
    if now % PERIOD == 0 {
      assert Clocked([Create]) == [Create] by {
        assert [Create][..0] == [];
      }
      assert [Create, Update][..1] == [Create];
    }
  }

  lemma RoundPlayed(m: Moment, now: nat, targets: seq<nat>, i: nat, start: Moment, later: nat, m': Moment)
    requires i < |targets| && IsGame(m, now, targets[..i], start)
    requires later == var before := Latest(now, targets[..i]); if before < targets[i] then targets[i] else before
    requires GameRound(start, Latest(now, targets[..i]), later, m')
    ensures later == Latest(now, targets[..i + 1]) && IsGame(m, now, targets[..i + 1], m')
  {
    assert targets[..i + 1][..i] == targets[..i];
  }

  ghost predicate IsGame(m: Moment, now: nat, targets: seq<nat>, m': Moment) {
    if targets == [] then m' == m
    else
      var before := targets[..|targets| - 1];
      exists mid: Moment ::
        IsGame(m, now, before, mid) && GameRound(mid, Latest(now, before), Latest(now, targets), m')
  }

  /** A game is a run of its events, so hits are typed there too. */
  lemma {:induction false} GamePlays(m: Moment, now: nat, targets: seq<nat>, m': Moment) returns (events: seq<Event>)
    requires IsGame(m, now, targets, m')
    ensures Plays(m, events, m')
    decreases |targets|
  {
    events := [];
    if targets != [] {
      var before := targets[..|targets| - 1];
      var mid: Moment :| IsGame(m, now, before, mid) && GameRound(mid, Latest(now, before), Latest(now, targets), m');
      var start := GamePlays(m, now, before, mid);
      var served: Moment, keyed: seq<Event>, clocked: seq<Event> :|
        Serves(mid, keyed, served) && Ticks(served, clocked, Latest(now, before), Latest(now, targets), m');
      PlaysConcat(mid, keyed, served, clocked, m');
      PlaysConcat(m, start, mid, keyed + clocked, m');
      events := start + (keyed + clocked);
    }
  }

  lemma SoundSurvive(ls: seq<Letter>)
    requires AllSound(ls)
    ensures AllSound(Survivors(ls))
  {
    forall j | 0 <= j < |Survivors(ls)| ensures Sound(Survivors(ls)[j]) {
      var i := SurvivorsOrigin(ls, j);
      StepUsesPatience(ls[i]);
    }
  }

  class Game {
    const pool: array<Node>
    const keys: array<bool>
    var freeHead: int
    var head: int
    var hit: nat
    var miss: nat
    var now: nat
    ghost var live: seq<int>
    ghost var spare: seq<int>
    ghost var created: nat
    ghost var initialised: nat

    /** The lists while a letter that has left may not be counted yet. */
    ghost predicate Counted()
      reads this, pool
    {
      && keys.Length == KEYS && freeHead != NULL && initialised == 1
      && Partition(pool[..], live, spare) && Doubly(pool[..], head, live)
      && Linked(Nexts(pool[..]), freeHead, spare)
    }

    ghost predicate Valid()
      reads this, pool
    {
      && keys.Length == KEYS
      && Partition(pool[..], live, spare) && Doubly(pool[..], head, live)
      && (if freeHead == NULL then live == [] && initialised == 0
          else Linked(Nexts(pool[..]), freeHead, spare) && initialised == 1)
      && created == |live| + hit + miss
    }

    /** The letters on the screen, newest first. */
    ghost function OnShow(): seq<Letter>
      requires Valid()
      reads this, pool
    {
      Letters(pool[..], live)
    }

    ghost function Current(): Moment
      requires Valid()
      reads this, pool, keys
    {
      Moment(OnShow(), keys[..], hit, miss)
    }

    constructor ()
      ensures Playing() && OnShow() == [] && hit == miss == now == 0 && fresh(pool) && fresh(keys)
    {
      pool := new Node[SIZE + 1](i => Node(NULL, NULL, Letter(0.0, 0, 0, 0.0)));
      keys := new bool[KEYS](i => false);
      freeHead, head, hit, miss, now := NULL, NULL, 0, 0, 0;
      live, spare, created, initialised := [], seq(SIZE + 1, i => i), 0, 0;
      new;
      AllSpare(pool[..]);
    }

    /** The links the first allocation sets up. */
    method LinkPool()
      requires Valid() && freeHead == NULL
      modifies pool
      ensures Valid() && Linked(Nexts(pool[..]), 0, seq(SIZE + 1, i => i))
    {
      for i := 1 to SIZE + 1
        invariant forall j :: 0 <= j < i - 1 ==> pool[j].next == j + 1
        invariant pool[SIZE].next == NULL
      {
        pool[i - 1] := pool[i - 1].(next := i);
      }
      ghost var all := seq(SIZE + 1, i => i);
      forall k | 0 <= k <= SIZE ensures Link(Nexts(pool[..]), all, k) {
      }
    }

    /** A node is off both lists, about to become the newest letter. */
    ghost predicate Holding(p: int)
      reads this, pool
    {
      && keys.Length == KEYS && p !in live && 0 <= p < SIZE
      && Partition(pool[..], [p] + live, spare) && Doubly(pool[..], head, live)
      && freeHead != NULL && Linked(Nexts(pool[..]), freeHead, spare) && initialised == 1
      && created == |live| + hit + miss && Distinct(live)
      && pool[p].prev == NULL && pool[p].next == NULL
    }

    /** The first spare node, once the pool has been set up. */
    method FirstFree() returns (p: int)
      requires Valid()
      modifies pool, `spare, `initialised
      ensures initialised == 1
      ensures Partition(pool[..], live, spare) && Doubly(pool[..], head, live) && Linked(Nexts(pool[..]), p, spare)
      ensures forall i :: i in live ==> pool[i] == old(pool[i])
      ensures freeHead != NULL ==> p == freeHead && Valid()
    {
      p := freeHead;
      if freeHead == NULL {
        LinkPool();
        initialised := initialised + 1;
        p := 0;
        spare := seq(SIZE + 1, i => i);
        AllSpare(pool[..]);
      }
    }

    /** Fails when only the last node of the pool is left. */
    method New() returns (p: int)
      requires Valid()
      modifies pool, `freeHead, `spare, `initialised
      ensures p == NULL <==> |live| == SIZE
      ensures p == NULL ==> Valid()
      ensures p != NULL ==> Holding(p)
      ensures forall i :: i in live ==> pool[i] == old(pool[i])
    {
      var first := FirstFree();
      OnlyLast(pool[..], first, live, spare);
      if pool[first].next == NULL {
        return NULL;
      }
      p := first;
      Take(p);
    }

    /** Takes the first spare node off the free list. */
    method Take(p: int)
      requires keys.Length == KEYS && created == |live| + hit + miss
      requires Partition(pool[..], live, spare) && Doubly(pool[..], head, live) && Linked(Nexts(pool[..]), p, spare)
      requires |live| < SIZE && initialised == 1
      modifies pool, `freeHead, `spare
      ensures Holding(p)
      ensures forall i :: i in live ==> pool[i] == old(pool[i])
    {
      ghost var before := pool[..];
      OnlyLast(before, p, live, spare);
      Allocated(before, live, spare);
      Tail(Nexts(before), p, spare);
      freeHead := pool[p].next;
      pool[p] := pool[p].(prev := NULL, next := NULL);
      spare := spare[1..];
      Framed(Nexts(before), Nexts(pool[..]), freeHead, spare);
      SameList(before, pool[..], head, live);
    }

    /** Links a node between two others, either of which may be absent. */
    method Insert(prev: int, next: int, obj: int)
      requires prev != NULL || next != NULL
      requires forall i :: i in [prev, next] ==> i == NULL || (0 <= i < pool.Length && i != obj)
      requires 0 <= obj < pool.Length && (prev == NULL || prev != next)
      modifies pool
      ensures pool[obj] == old(pool[obj]).(prev := prev, next := next)
      ensures forall i :: 0 <= i < pool.Length && i != obj ==>
                pool[i] == old(pool[i]).(next := if i == prev then obj else old(pool[i].next),
                                         prev := if i == next then obj else old(pool[i].prev))
    {
      assert prev in [prev, next] && next in [prev, next];
      pool[obj] := pool[obj].(prev := prev);
      pool[obj] := pool[obj].(next := next);
      if prev != NULL {
        pool[prev] := pool[prev].(next := obj);
      }
      if next != NULL {
        pool[next] := pool[next].(prev := obj);
      }
    }

    method Remove(node: int)
      requires 0 <= node < pool.Length
      requires forall i :: i in [pool[node].prev, pool[node].next] ==> i == NULL || (0 <= i < pool.Length && i != node)
      requires pool[node].prev == NULL || pool[node].prev != pool[node].next
      modifies pool
      ensures Bypassed(old(pool[..]), pool[..], node)
    {
      var prev, next := pool[node].prev, pool[node].next;
      assert prev in [prev, next] && next in [prev, next];
      if prev != NULL {
        pool[prev] := pool[prev].(next := next);
      }
      if next != NULL {
        pool[next] := pool[next].(prev := prev);
      }
    }

    /** rand is an arbitrary choice. */
    method CreateNewLetter() returns (ok: bool)
      requires Valid()
      modifies pool, keys, `freeHead, `head, `live, `spare, `created, `initialised
      ensures Valid() && (ok <==> old(|live|) < SIZE)
      ensures !ok ==> OnShow() == old(OnShow())
      ensures ok ==> |OnShow()| > 0 && OnShow()[1..] == old(OnShow()) && created == old(created) + 1
      ensures ok ==> Fresh(OnShow()[0])
      ensures ok ==> keys[..] == old(keys[..])[OnShow()[0].text := false]
      ensures if ok then Follows(old(Current()), Create, Current()) else Current() == old(Current())
    {
      ghost var letters := OnShow();
      var p := New();
      assert forall k :: 0 <= k < |live| ==> live[k] in live;
      if p == NULL {
        return false;
      }
      assert Letters(pool[..], live) == letters;
      Attach(p);
      Paint();
      return true;
    }

    /** The list part of create_new_letter. */
    method Attach(p: int)
      requires Holding(p)
      modifies pool, `head, `live, `created
      ensures Valid() && live == [p] + old(live) && created == old(created) + 1
      ensures OnShow()[1..] == old(Letters(pool[..], live))
    {
      ghost var before := pool[..];
      if head == NULL {
        head := p;
      } else {
        assert live[0] in live;
        Insert(NULL, head, p);
        head := p;
      }
      Prepended(before, pool[..], old(head), live, p);
      Framed(Nexts(before), Nexts(pool[..]), freeHead, spare);
      LettersPushed(before, pool[..], live, p);
      live, created := [p] + live, created + 1;
    }

    /** The data part of create_new_letter. */
    method Paint()
      requires Valid() && live != []
      modifies pool, keys
      ensures Valid() && Fresh(OnShow()[0])
      ensures OnShow()[1..] == old(OnShow())[1..]
      ensures keys[..] == old(keys[..])[OnShow()[0].text := false]
    {
      var r0: nat, r1: nat, r2: nat := *, *, *;
      assert live[0] in live;
      pool[head] := pool[head].(letter := pool[head].letter.(x := 0.0));
      pool[head] := pool[head].(letter := pool[head].letter.(y := r0 % (SCR_WIDTH / 8 - 2) * 8 + 8));
      pool[head] := pool[head].(letter := pool[head].letter.(v := ((r1 % 1000) / 2000) as real + 0.5));
      pool[head] := pool[head].(letter := pool[head].letter.(text := r2 % 26));
      keys[pool[head].letter.text] := false;
      Repainted(old(pool[..]), pool[..], freeHead, head, live, spare);
    }

    method Free(node: int)
      requires 0 <= node < pool.Length
      modifies pool, `freeHead
      ensures freeHead == node
      ensures pool[..] == old(pool[..])[node := old(pool[node]).(next := old(freeHead))]
    {
      pool[node] := pool[node].(next := freeHead);
      freeHead := node;
    }

    /** fly_remove, fly_free and the update of head for a letter that has left. */
    method Discard(it: int, ghost k: nat)
      requires Counted() && k < |live| && it == live[k]
      modifies pool, `freeHead, `head, `live, `spare
      ensures Counted() && live == Cut(old(live), k)
      ensures forall i :: i in old(live) ==> pool[i].letter == old(pool[i].letter)
    {
      ghost var before := pool[..];
      Neighbours(before, head, live, k);
      var next := pool[it].next;
      Remove(it);
      ghost var removed := pool[..];
      Free(it);
      if it == head {
        head := next;
      }
      Discarded(before, removed, live, spare, old(head), old(freeHead), k);
      live, spare := Cut(live, k), [it] + spare;
    }

    /** One clock step. */
    method UpdateLetterPos()
      requires Valid()
      modifies pool, `freeHead, `head, `live, `spare, `hit, `miss
      ensures Valid() && OnShow() == Survivors(old(OnShow())) && created == old(created)
      ensures hit == old(hit) + Hits(old(OnShow())) && miss == old(miss) + Misses(old(OnShow()))
      ensures Follows(old(Current()), Update, Current())
    {
      var it := head;
      ghost var k: nat, before := 0, OnShow();
      while it != NULL
        invariant Valid() && k <= |live| && it == At(live, k) && created == old(created)
        invariant HalfMoved(before, OnShow(), k, hit - old(hit), miss - old(miss))
        decreases |live| - k
      {
        OneMore(before, OnShow(), k, hit - old(hit), miss - old(miss));
        it, k := Visit(it, k);
      }
      assert OnShow()[k..] == [] && OnShow()[..k] == OnShow();
      UpdateFollows(old(Current()), Current());
    }

    /** The body of the loop of update_letter_pos. */
    method Visit(it: int, ghost k: nat) returns (next: int, ghost k': nat)
      requires Valid() && k < |live| && it == live[k]
      modifies pool, `freeHead, `head, `live, `spare, `hit, `miss
      ensures Valid() && k' <= |live| && next == At(live, k') && created == old(created)
      ensures |live| - k' == old(|live|) - k - 1
      ensures var l := Moved(old(OnShow())[k]);
              && k' == (if OnScreen(l) then k + 1 else k)
              && OnShow() == (if OnScreen(l) then old(OnShow())[k := l] else Cut(old(OnShow()), k))
              && hit == old(hit) + (if Above(l) then 1 else 0)
              && miss == old(miss) + (if !Above(l) && Below(l) then 1 else 0)
    {
      assert it in live && Link(Nexts(pool[..]), live, k);
      next, k' := pool[it].next, k + 1;
      Move(it, k);
      if pool[it].letter.x < 0.0 || pool[it].letter.x + 7.9 > SCR_HEIGHT {
        if pool[it].letter.x < 0.0 {
          hit := hit + 1;
        } else {
          miss := miss + 1;
        }
        Leave(it, k);
        k' := k;
      }
    }

    method Leave(it: int, ghost k: nat)
      requires Counted() && k < |live| && it == live[k] && created == |live| + hit + miss - 1
      modifies pool, `freeHead, `head, `live, `spare
      ensures Valid() && live == Cut(old(live), k) && OnShow() == Cut(old(Letters(pool[..], live)), k)
    {
      ghost var before := pool[..];
      Discard(it, k);
      LettersCut(before, pool[..], old(live), k);
    }

    method Move(it: int, ghost k: nat)
      requires Valid() && k < |live| && it == live[k]
      modifies pool
      ensures Valid() && OnShow() == old(OnShow()[k := Moved(OnShow()[k])])
      ensures 0 <= it < pool.Length && pool[it].letter == OnShow()[k]
    {
      assert it in live;
      pool[it] := pool[it].(letter := pool[it].letter.(x := pool[it].letter.x + pool[it].letter.v));
      Repainted(old(pool[..]), pool[..], freeHead, head, live, spare);
    }

    /** The game between two steps of the clock. */
    ghost predicate Playing()
      reads this, pool
    {
      && Valid() && Spaced(OnShow(), Gap(now)) && (now == 0 ==> OnShow() == [])
      && created == CreatedBy(now)
    }

    method UpdateKeypress() returns (found: bool, ghost k: nat)
      requires Valid() && forall j :: 0 <= j < |OnShow()| ==> Sound(OnShow()[j])
      modifies pool, keys
      ensures Valid() && k <= |old(OnShow())| && Lowest(old(OnShow()), old(keys[..]), |old(OnShow())|, k)
      ensures found <==> k < |old(OnShow())|
      ensures found ==>
                && OnShow() == HitAt(old(OnShow()), k)
                && keys[..] == old(keys[..])[old(OnShow())[k].text := false]
      ensures !found ==> OnShow() == old(OnShow()) && keys[..] == old(keys[..])
      ensures Turns(old(Current()), k, Current())
    {
      var target, min;
      target, min, k := FindTarget();
      found := target != NULL;
      if found {
        assert target in live;
        keys[pool[target].letter.text] := false;
        pool[target] := pool[target].(letter := pool[target].letter.(v := -3.0));
        Repainted(old(pool[..]), pool[..], freeHead, head, live, spare);
      }
    }

    method FindTarget() returns (target: int, min: real, ghost k: nat)
      requires Valid() && forall j :: 0 <= j < |OnShow()| ==> Sound(OnShow()[j])
      ensures k <= |OnShow()| && Lowest(OnShow(), keys[..], |OnShow()|, k) && target == At(live, k)
      ensures target == NULL <==> forall j :: 0 <= j < |OnShow()| ==> !Candidate(OnShow()[j], keys[..])
    {
      var it := head;
      target, min := NULL, -100.0;
      ghost var n: nat := 0;
      k := 0;
      while it != NULL
        invariant n <= |live| && it == At(live, n) && Lowest(OnShow(), keys[..], n, k)
        invariant if k < n then target == live[k] && min == OnShow()[k].x else k == n && target == NULL && min == -100.0
        decreases |live| - n
      {
        assert it in live && Link(Nexts(pool[..]), live, n) && Sound(OnShow()[n]);
        var l := pool[it].letter;
        assert l.text < KEYS;
        if l.v > 0.0 && l.x > min && keys[l.text] {
          min := l.x;
          target := it;
          k := n;
        } else if k == n {
          k := n + 1;
        }
        it, n := pool[it].next, n + 1;
      }
    }

    /** press_key for the key of a letter. */
    method PressKey(j: nat)
      requires j < KEYS == keys.Length
      modifies keys
      ensures keys[..] == old(keys[..])[j := true]
    {
      keys[j] := true;
    }

    /** Interrupts at any moment: any keys go down. */
    method KeyboardEvents() returns (ghost events: seq<Event>)
      requires Valid()
      modifies keys
      ensures Valid() && Pressed(old(Current()), events, Current())
    {
      events := [];
      for j := 0 to KEYS
        invariant Valid() && Pressed(old(Current()), events, Current())
      {
        var down: bool := *;
        if down {
          ghost var before := Current();
          PressKey(j);
          PressedThen(old(Current()), events, before, j, Current());
          events := events + [Press(j)];
        }
      }
    }

    /** Keys go down, and update_keypress is called. */
    method PressAndHit() returns (found: bool, ghost k: nat, ghost events: seq<Event>)
      requires Valid() && AllSound(OnShow())
      modifies pool, keys
      ensures Valid() && Keyed(old(Current()), events, Current())
      ensures found ==> k < |old(OnShow())| && old(OnShow())[k].v > 0.0 && OnShow() == HitAt(old(OnShow()), k)
      ensures !found ==> OnShow() == old(OnShow()) && NoCandidate(Current())
    {
      events := KeyboardEvents();
      ghost var seen := Current();
      found, k := UpdateKeypress();
      PlaysThen(old(Current()), events, seen, Keypress, Current());
      events := events + [Keypress];
    }

    /** The loop of main_loop that runs update_keypress until it finds nothing; it
        ends because every hit stops a letter from falling, whatever is pressed. */
    method ServeKeys() returns (ghost events: seq<Event>)
      requires Playing()
      modifies pool, keys
      ensures Playing() && Serves(old(Current()), events, Current())
      ensures ServedRight(old(Current()), events, Current())
    {
      var found := true;
      events := [];
      while found
        invariant Playing()
        invariant Keyed(old(Current()), events, Current())
        invariant !found ==> NoCandidate(Current())
        decreases Falling(OnShow()), found
      {
        ghost var before, letters := Current(), OnShow();
        ghost var k, more;
        found, k, more := PressAndHit();
        KeyedConcat(old(Current()), events, before, more, Current());
        events := events + more;
        if found {
          HitKeepsSpacing(letters, k, Gap(now));
          HitStopsFalling(letters, k);
        }
      }
      ServesRight(old(Current()), events, Current());
    }

    /** The part of a clock step that creates a letter every PERIOD steps. */
    method CreateInTime() returns (ghost gap: nat, ghost events: seq<Event>)
      requires Playing()
      modifies pool, keys, `freeHead, `head, `live, `spare, `created, `initialised
      ensures Valid() && Spaced(OnShow(), gap) && gap + 1 == Gap(now + 1) && created == CreatedBy(now + 1)
      ensures Plays(old(Current()), events, Current())
      ensures events == if now % PERIOD == 0 then [Create] else []
    {
      ghost var letters := OnShow();
      FewLetters(letters, Gap(now));
      GapStep(now);
      CreatedStep(now);
      gap, events := Gap(now), [];
      if now % (HZ / CHARACTER_PER_SECOND) == 0 {
        ghost var before := Current();
        var ok := CreateNewLetter();
        assert ok;
        PlaysThen(before, [], before, Create, Current());
        assert OnShow() == [OnShow()[0]] + letters;
        CreateKeepsSpacing(letters, OnShow()[0], gap);
        gap, events := 0, [Create];
      }
    }

    method UpdateSpaced(ghost gap: nat)
      requires Valid() && Spaced(OnShow(), gap)
      modifies pool, `freeHead, `head, `live, `spare, `hit, `miss
      ensures Valid() && Spaced(OnShow(), gap + 1) && created == old(created)
      ensures Follows(old(Current()), Update, Current())
    {
      StepKeepsSpacing(OnShow(), gap);
      UpdateLetterPos();
    }

    /** One pass of the clock loop of main_loop. */
    method Step()
      requires Playing()
      modifies this, pool, keys
      ensures Playing() && now == old(now) + 1
      ensures Plays(old(Current()), Tick(old(now)), Current())
    {
      Operate();
      now := now + 1;
    }

    /** The two operations of the clock loop. */
    method Operate()
      requires Playing()
      modifies pool, keys, `freeHead, `head, `live, `spare, `created, `initialised, `hit, `miss
      ensures Valid() && Spaced(OnShow(), Gap(now + 1)) && created == CreatedBy(now + 1)
      ensures Plays(old(Current()), Tick(now), Current())
    {
      ghost var gap, events := CreateInTime();
      EveryStep(now);
      if now % (HZ / UPDATE_PER_SECOND) == 0 {
        ghost var middle := Current();
        UpdateSpaced(gap);
        StepPlays(old(Current()), events, middle, now, Current());
      }
    }

    /** Keys go down, and a clock step follows. */
    method PressAndStep() returns (ghost events: seq<Event>)
      requires Playing()
      modifies this, pool, keys
      ensures Playing() && now == old(now) + 1
      ensures Ticks(old(Current()), events, old(now), now, Current())
    {
      ghost var pressed := KeyboardEvents();
      ghost var middle := Current();
      Step();
      PressedTick(old(Current()), pressed, middle, old(now), Current());
      events := pressed + Tick(old(now));
    }

    /** The inner loop of main_loop; keys go down at any moment. */
    method CatchUp(target: nat) returns (ghost events: seq<Event>)
      requires Playing()
      modifies this, pool, keys
      ensures Playing() && now == (if old(now) < target then target else old(now))
      ensures Ticks(old(Current()), events, old(now), now, Current())
    {
      events := [];
      while now < target
        invariant Playing() && old(now) <= now && (now > old(now) ==> now <= target)
        invariant Ticks(old(Current()), events, old(now), now, Current())
        decreases target - now
      {
        ghost var middle := Current();
        ghost var more := PressAndStep();
        TicksThen(old(Current()), events, old(now), now - 1, middle, more, Current());
        events := events + more;
      }
    }

    /** A round of main_loop. */
    method PlayRound(target: nat)
      requires Playing()
      modifies this, pool, keys
      ensures Playing() && now == (if old(now) < target then target else old(now))
      ensures GameRound(old(Current()), old(now), now, Current())
    {
      ghost var keyed := ServeKeys();
      ghost var served := Current();
      ghost var clocked := CatchUp(target);
    }

    /** main_loop, by the clock ticks that its rounds catch up to. */
    method MainLoop(targets: seq<nat>)
      requires Playing()
      modifies this, pool, keys
      ensures Playing()
      ensures |OnShow()| <= 14
      ensures now == Latest(old(now), targets)
      ensures hit + miss + |OnShow()| == CreatedBy(now)
      ensures IsGame(old(Current()), old(now), targets, Current())
    {
      assert targets[..0] == [];
      for i := 0 to |targets|
        invariant Playing() && now == Latest(old(now), targets[..i])
        invariant IsGame(old(Current()), old(now), targets[..i], Current())
      {
        ghost var start := Current();
        PlayRound(targets[i]);
        RoundPlayed(old(Current()), old(now), targets, i, start, now, Current());
      }
      assert targets[..|targets|] == targets;
      FewLetters(OnShow(), Gap(now));
    }

    /** One of the game's three operations, or a key going down; fails exactly when
        the pool is used up. */
    method Perform(e: Event) returns (ok: bool)
      requires Valid() && AllSound(OnShow()) && (e.Press? ==> e.key < KEYS)
      modifies this, pool, keys
      ensures Valid() && AllSound(OnShow())
      ensures ok <==> !(e.Create? && old(|live|) == SIZE)
      ensures if ok then Follows(old(Current()), e, Current()) else Current() == old(Current())
      ensures created == old(created) + if e.Create? && ok then 1 else 0
    {
      ok := true;
      match e {
        case Create =>
          ok := CreateNewLetter();
        case Update =>
          UpdateLetterPos();
        case Keypress =>
          var found;
          ghost var k;
          found, k := UpdateKeypress();
        case Press(j) =>
          PressKey(j);
      }
      if ok {
        FollowsSound(old(Current()), e, Current());
      }
    }

    /** Any run of the operations and of keys going down, up to the first creation
        that finds the pool used up. */
    method Run(events: seq<Event>) returns (done: nat)
      requires Valid() && AllSound(OnShow())
      requires forall i :: 0 <= i < |events| && events[i].Press? ==> events[i].key < KEYS
      modifies this, pool, keys
      ensures Valid() && AllSound(OnShow()) && done <= |events|
      ensures Plays(old(Current()), events[..done], Current())
      ensures done < |events| ==> events[done].Create? && |OnShow()| == SIZE
      ensures |OnShow()| + hit + miss == old(|OnShow()| + hit + miss) + Creates(events[..done])
    {
      done := 0;
      while done < |events|
        invariant Valid() && AllSound(OnShow()) && done <= |events|
        invariant Plays(old(Current()), events[..done], Current())
        invariant created == old(created) + Creates(events[..done])
      {
        ghost var before := Current();
        var ok := Perform(events[done]);
        if !ok {
          break;
        }
        PlaysThen(old(Current()), events[..done], before, events[done], Current());
        OneMoreEvent(events, done);
        done := done + 1;
      }
    }
  }
}
