/** The announce / pull / guess protocol of one receiving gateway, over flows and sequence numbers instead of names:
    what `dealOnInterest` does to the guess table and which Interests it expresses, over whole histories of arriving
    announcements (lost, reordered and duplicated by the network in any way). */
module Guessing {
  import opened Names

  /** Packet `num` of a flow; also the announcement of that packet. */
  datatype Item = Item(flow: Flow, num: int)

  /** An expressed Interest: the formal request an announcement asks for, or a speculative one. */
  datatype Request = Formal(item: Item) | Guess(item: Item)

  type History = seq<Item>

  // ---------- one announcement ----------

  function Ahead(a: Item, k: int): Item {
    Item(a.flow, a.num + k)
  }

  /** The guesses of the first `k` rounds of the loop that are not in the table yet, in order. */
  function NewGuesses(table: set<Item>, a: Item, k: nat): seq<Request> {
    if k == 0 then []
    else NewGuesses(table, a, k - 1) + if Ahead(a, k) in table then [] else [Guess(Ahead(a, k))]
  }

  function Window(a: Item, k: nat): set<Item> {
    set i | 1 <= i <= k :: Ahead(a, i)
  }

  function TableStep(table: set<Item>, a: Item): set<Item> {
    table - {a} + Window(a, NUM_OF_GUEST)
  }

  function LogStep(table: set<Item>, a: Item): seq<Request> {
    [Formal(a)] + NewGuesses(table, a, NUM_OF_GUEST)
  }

  // ---------- whole histories ----------

  /** The guess table after a history that starts with an empty table. */
  function Table(h: History): set<Item> {
    if h == [] then {} else TableStep(Table(h[..|h| - 1]), h[|h| - 1])
  }

  /** Every Interest expressed so far, in order. */
  function Log(h: History): seq<Request> {
    if h == [] then [] else Log(h[..|h| - 1]) + LogStep(Table(h[..|h| - 1]), h[|h| - 1])
  }

  function Count<T(==)>(s: seq<T>, x: T): nat {
    if s == [] then 0 else Count(s[..|s| - 1], x) + if s[|s| - 1] == x then 1 else 0
  }

  function Announcements(h: History, m: Item): nat { Count(h, m) }

  function FormalRequests(h: History, m: Item): nat { Count(Log(h), Formal(m)) }

  function Guesses(h: History, m: Item): nat { Count(Log(h), Guess(m)) }

  function Requests(h: History, m: Item): nat { FormalRequests(h, m) + Guesses(h, m) }

  /** How often an announcement of `m` found `m` in the table and took it out. */
  function Erasures(h: History, m: Item): nat {
    if h == [] then 0
    else
      var before := h[..|h| - 1];
      Erasures(before, m) + if h[|h| - 1] == m && m in Table(before) then 1 else 0
  }

  /** The announcement `a` asks for `m`, formally or as a guess. */
  predicate Covers(a: Item, m: Item) {
    a.flow == m.flow && m.num - NUM_OF_GUEST <= a.num <= m.num
  }

  lemma {:induction false} CountConcat<T>(s: seq<T>, t: seq<T>, x: T)
    ensures Count(s + t, x) == Count(s, x) + Count(t, x)
  {
    if t == [] {
      assert s + t == s;
    } else {
      CountConcat(s, t[..|t| - 1], x);
      assert (s + t)[..|s + t| - 1] == s + t[..|t| - 1];
    }
  }

  lemma {:induction false} CountZero<T>(s: seq<T>, x: T)
    ensures Count(s, x) == 0 <==> x !in s
  {
    if s != [] {
      CountZero(s[..|s| - 1], x);
      assert s == s[..|s| - 1] + [s[|s| - 1]];
    }
  }

  lemma {:induction false} NewGuessesCount(table: set<Item>, a: Item, k: nat, m: Item)
    ensures Count(NewGuesses(table, a, k), Guess(m)) == if m in Window(a, k) && m !in table then 1 else 0
    ensures Count(NewGuesses(table, a, k), Formal(m)) == 0
  {
    if k > 0 {
      NewGuessesCount(table, a, k - 1, m);
      var last := if Ahead(a, k) in table then [] else [Guess(Ahead(a, k))];
      CountConcat(NewGuesses(table, a, k - 1), last, Guess(m));
      CountConcat(NewGuesses(table, a, k - 1), last, Formal(m));
      WindowStep(a, k);
    }
  }

  lemma WindowMembers(a: Item, k: nat, m: Item)
    ensures m in Window(a, k) <==> m.flow == a.flow && a.num < m.num <= a.num + k
  {
    if m.flow == a.flow && a.num < m.num <= a.num + k {
      assert m == Ahead(a, m.num - a.num);
    }
  }

  lemma WindowStep(a: Item, k: nat)
    requires k > 0
    ensures Window(a, k) == Window(a, k - 1) + {Ahead(a, k)} && Ahead(a, k) !in Window(a, k - 1)
  {
    forall m ensures m in Window(a, k) <==> m in Window(a, k - 1) + {Ahead(a, k)} {
      WindowMembers(a, k, m);
      WindowMembers(a, k - 1, m);
    }
    WindowMembers(a, k - 1, Ahead(a, k));
  }

  // ---------- the table is a function of history ----------

  /** The latest announcement that covers `m` is at `j`. */
  ghost predicate LatestCover(h: History, j: nat, m: Item) {
    && j < |h|
    && Covers(h[j], m)
    && forall k :: j < k < |h| ==> !Covers(h[k], m)
  }

  /** `m` is in the table exactly when some announcement covered it and the latest to do so was not its own. */
  lemma {:induction false} TableIsHistory(h: History, m: Item)
    ensures m in Table(h) <==> exists j: nat :: LatestCover(h, j, m) && h[j] != m
  {
    if h != [] {
      var n := |h| - 1;
      var before, a := h[..n], h[n];
      TableIsHistory(before, m);
      WindowMembers(a, NUM_OF_GUEST, m);
      if Covers(a, m) {
        assert LatestCover(h, n, m);
        forall j: nat | LatestCover(h, j, m) ensures j == n { }
      } else {
        forall j: nat ensures LatestCover(h, j, m) <==> LatestCover(before, j, m) { }
        if m in Table(before) {
          var j: nat :| LatestCover(before, j, m) && before[j] != m;
          assert LatestCover(h, j, m) && h[j] != m;
        }
        if j: nat :| LatestCover(h, j, m) && h[j] != m {
          assert LatestCover(before, j, m) && before[j] != m;
        }
      }
    }
  }

  /** An announcement leaves the entries of every other flow, and of its own flow outside the window, as they were. */
  lemma OtherEntriesUntouched(table: set<Item>, a: Item, m: Item)
    requires !Covers(a, m)
    ensures m in TableStep(table, a) <==> m in table
    ensures Formal(m) !in LogStep(table, a) && Guess(m) !in LogStep(table, a)
  {
    WindowMembers(a, NUM_OF_GUEST, m);
    NewGuessesCount(table, a, NUM_OF_GUEST, m);
    CountZero(NewGuesses(table, a, NUM_OF_GUEST), Formal(m));
    CountZero(NewGuesses(table, a, NUM_OF_GUEST), Guess(m));
  }

  ghost predicate Ascending(log: seq<Request>) {
    forall i, j :: 0 <= i < j < |log| ==> log[i].item.num < log[j].item.num
  }

  /** An announcement is answered by the formal request first, and then by guesses in ascending order. */
  lemma RequestsInOrder(table: set<Item>, a: Item)
    ensures var log := LogStep(table, a);
            log[0] == Formal(a) && Ascending(log) && forall i :: 1 <= i < |log| ==> log[i].Guess?
  {
    hide NewGuesses;
    GuessesAscend(table, a, NUM_OF_GUEST);
    var guesses := NewGuesses(table, a, NUM_OF_GUEST);
    assert forall i :: 1 <= i < |LogStep(table, a)| ==> LogStep(table, a)[i] == guesses[i - 1];
  }

  lemma {:induction false} GuessesAscend(table: set<Item>, a: Item, k: nat)
    ensures var log := NewGuesses(table, a, k);
            Ascending(log) && forall r :: r in log ==> r.Guess? && a.num < r.item.num <= a.num + k
  {
    if k > 0 {
      GuessesAscend(table, a, k - 1);
      var before, log := NewGuesses(table, a, k - 1), NewGuesses(table, a, k);
      assert forall i :: 0 <= i < |before| ==> log[i] == before[i] && before[i] in before;
    }
  }

  // ---------- request accounting ----------

  lemma LogStepCounts(table: set<Item>, a: Item, m: Item)
    ensures Count(LogStep(table, a), Formal(m)) == if a == m then 1 else 0
    ensures Count(LogStep(table, a), Guess(m)) == if m in TableStep(table, a) && (m !in table || a == m) then 1 else 0
  {
    NewGuessesCount(table, a, NUM_OF_GUEST, m);
    CountConcat([Formal(a)], NewGuesses(table, a, NUM_OF_GUEST), Formal(m));
    CountConcat([Formal(a)], NewGuesses(table, a, NUM_OF_GUEST), Guess(m));
    assert [Formal(a)][..0] == [];
    WindowMembers(a, NUM_OF_GUEST, m);
  }

  /** Every guess of `m` was either taken out again by an announcement of `m` or is still in the table; every
      announcement is one formal request. */
  lemma {:induction false} RequestAccounting(h: History, m: Item)
    ensures FormalRequests(h, m) == Announcements(h, m)
    ensures Guesses(h, m) == Erasures(h, m) + if m in Table(h) then 1 else 0
    ensures Erasures(h, m) <= Announcements(h, m)
    ensures Requests(h, m) <= 2 * Announcements(h, m) + 1
  {
    if h != [] {
      var n := |h| - 1;
      var before, a := h[..n], h[n];
      RequestAccounting(before, m);
      LogStepCounts(Table(before), a, m);
      CountConcat(Log(before), LogStep(Table(before), a), Formal(m));
      CountConcat(Log(before), LogStep(Table(before), a), Guess(m));
      WindowMembers(a, NUM_OF_GUEST, m);
    }
  }

  /** The history that announces a packet `k` times, each time after and before its predecessor (which is announced
      `k` + 1 times). */
  function Alternating(m: Item, k: nat): History {
    if k == 0 then [Ahead(m, -1)] else Alternating(m, k - 1) + [m, Ahead(m, -1)]
  }

  lemma OneMore(h: History, a: Item, m: Item)
    ensures Table(h + [a]) == TableStep(Table(h), a)
    ensures Announcements(h + [a], m) == Announcements(h, m) + if a == m then 1 else 0
    ensures Erasures(h + [a], m) == Erasures(h, m) + if a == m && m in Table(h) then 1 else 0
  {
    assert (h + [a])[..|h|] == h;
  }

  /** The bound is reached for every number of announcements, by a history that needs the predecessor only. */
  lemma {:induction false} BoundIsReached(m: Item, k: nat)
    ensures Announcements(Alternating(m, k), m) == k
    ensures Requests(Alternating(m, k), m) == 2 * k + 1
    ensures forall a :: a in Alternating(m, k) ==> a == m || a == Ahead(m, -1)
  {
    OnlyPredecessor(m, k);
    AlternatingCounts(m, k);
    RequestAccounting(Alternating(m, k), m);
  }

  lemma {:induction false} OnlyPredecessor(m: Item, k: nat)
    ensures forall a :: a in Alternating(m, k) ==> a == m || a == Ahead(m, -1)
  {
    if k > 0 {
      OnlyPredecessor(m, k - 1);
    }
  }

  lemma {:induction false} AlternatingCounts(m: Item, k: nat)
    ensures m in Table(Alternating(m, k))
    ensures Announcements(Alternating(m, k), m) == Erasures(Alternating(m, k), m) == k
  {
    hide Table, Count, Erasures;
    var before := Ahead(m, -1);
    WindowMembers(before, NUM_OF_GUEST, m);
    if k == 0 {
      OneMore([], before, m);
      assert [] + [before] == [before];
      EmptyHistory(m);
    } else {
      AlternatingCounts(m, k - 1);
      var h := Alternating(m, k - 1);
      OneMore(h, m, m);
      OneMore(h + [m], before, m);
      assert h + [m] + [before] == h + [m, before];
    }
  }

  lemma EmptyHistory(m: Item)
    ensures Announcements([], m) == Erasures([], m) == 0 && Table([]) == {}
  {
  }

  predicate Speculates(a: Item, m: Item) {
    Covers(a, m) && a != m
  }

  /** Some announcement in h[lo..hi] guesses `m`. */
  ghost predicate GuessedBetween(h: History, lo: nat, hi: nat, m: Item)
    requires lo <= hi <= |h|
  {
    exists i :: lo <= i < hi && Speculates(h[i], m)
  }

  /** Between its own announcements a packet is in the table exactly if it has been guessed since. */
  lemma InTableSince(h: History, since: nat, m: Item)
    requires since <= |h| && forall i :: since <= i < |h| ==> h[i] != m
    requires since == 0 || h[since - 1] == m
    ensures m in Table(h) <==> GuessedBetween(h, since, |h|, m)
  {
    hide Table;
    TableIsHistory(h, m);
    if GuessedBetween(h, since, |h|, m) {
      var i :| since <= i < |h| && Speculates(h[i], m);
      var l := LastCover(h, i, m);
      assert LatestCover(h, l, m) && h[l] != m;
    }
    if m in Table(h) {
      var l: nat :| LatestCover(h, l, m) && h[l] != m;
      assert since > 0 ==> Covers(h[since - 1], m);
      assert Speculates(h[l], m);
    }
  }

  /** The exact cost of a packet that is announced once, at position `j`: one formal request, one guess if a close
      predecessor was announced before it, one more if a close predecessor arrives after it. */
  lemma SingleAnnouncementCost(h: History, j: nat, m: Item)
    requires j < |h| && h[j] == m && forall i :: 0 <= i < |h| && i != j ==> h[i] != m
    ensures Requests(h, m) ==
            1 + (if GuessedBetween(h, 0, j, m) then 1 else 0) + (if GuessedBetween(h, j + 1, |h|, m) then 1 else 0)
  {
    hide Table, Erasures, Count, Log, GuessedBetween;
    OneAnnouncement(h, j, m);
    RequestAccounting(h, m);
    InTableSince(h, j + 1, m);
    InTableSince(h[..j], 0, m);
    SameUpTo(h, j, m);
  }

  lemma SameUpTo(h: History, j: nat, m: Item)
    requires j <= |h|
    ensures GuessedBetween(h, 0, j, m) <==> GuessedBetween(h[..j], 0, j, m)
  {
    forall i | 0 <= i < j ensures h[..j][i] == h[i] { }
  }

  /** Reordering alone, with nothing announced twice, can make a packet requested three times. */
  lemma ReorderedThrice(m: Item)
    ensures Requests([Ahead(m, -1), m, Ahead(m, -2)], m) == 3
  {
    hide Requests;
    var h := [Ahead(m, -1), m, Ahead(m, -2)];
    assert Speculates(h[0], m) && Speculates(h[2], m);
    SingleAnnouncementCost(h, 1, m);
  }

  /** Numbers start at 1, so the first packet of a flow has no predecessor and is never guessed. */
  lemma FirstNeverGuessed(h: History, m: Item)
    requires m.num <= 1 && forall a :: a in h ==> a.num >= 1
    ensures Guesses(h, m) == 0 && Requests(h, m) == Announcements(h, m)
  {
    NeverInTable(h, m);
    RequestAccounting(h, m);
  }

  lemma {:induction false} NeverInTable(h: History, m: Item)
    requires m.num <= 1 && forall a :: a in h ==> a.num >= 1
    ensures m !in Table(h) && Erasures(h, m) == 0
  {
    if h != [] {
      var n := |h| - 1;
      NeverInTable(h[..n], m);
      assert h[n] in h;
      WindowMembers(h[n], NUM_OF_GUEST, m);
    }
  }

  lemma {:induction false} OneAnnouncement(h: History, j: nat, m: Item)
    requires j < |h| && h[j] == m && forall i :: 0 <= i < |h| && i != j ==> h[i] != m
    ensures Announcements(h, m) == 1
    ensures Erasures(h, m) == if m in Table(h[..j]) then 1 else 0
  {
    var n := |h| - 1;
    var before := h[..n];
    if j == n {
      CountZero(before, m);
      RequestAccounting(before, m);
    } else {
      OneAnnouncement(before, j, m);
      assert before[..j] == h[..j];
    }
  }

  lemma {:induction false} LastCover(h: History, i: nat, m: Item) returns (l: nat)
    requires i < |h| && Covers(h[i], m)
    ensures i <= l && LatestCover(h, l, m)
    decreases |h|
  {
    var n := |h| - 1;
    if Covers(h[n], m) {
      l := n;
    } else {
      l := LastCover(h[..n], i, m);
    }
  }

  // ---------- loss tolerance ----------

  ghost predicate Requested(h: History, m: Item) {
    Formal(m) in Log(h) || Guess(m) in Log(h)
  }

  /** A packet is requested exactly when an announcement within 60 before it has arrived. */
  lemma RequestedIffCovered(h: History, m: Item)
    ensures Requested(h, m) <==> exists j :: 0 <= j < |h| && Covers(h[j], m)
  {
    RequestAccounting(h, m);
    CountZero(Log(h), Formal(m));
    CountZero(Log(h), Guess(m));
    CountZero(h, m);
    TableIsHistory(h, m);
    if Guess(m) in Log(h) && m !in Table(h) {
      assert m in h;
    }
    if j :| 0 <= j < |h| && Covers(h[j], m) && m !in h {
      var l := LastCover(h, j, m);
    }
  }

  ghost predicate Arrived(h: History, flow: Flow, n: int) {
    Item(flow, n) in h
  }

  /** Every arrival of the flow but the greatest has another at most 61 above it. */
  ghost predicate GapsAtMost61(h: History, flow: Flow, greatest: int) {
    forall n :: Arrived(h, flow, n) && n < greatest ==>
                  exists n' :: Arrived(h, flow, n') && n < n' <= n + NUM_OF_GUEST + 1
  }

  /** Every sequence number from the least arrival to sixty past the greatest has been requested exactly when no two
      neighbouring arrivals are more than 61 apart. */
  lemma LossTolerance(h: History, flow: Flow, least: int, greatest: int)
    requires Arrived(h, flow, least) && Arrived(h, flow, greatest)
    requires forall n :: Arrived(h, flow, n) ==> least <= n <= greatest
    ensures GapsAtMost61(h, flow, greatest) <==>
            forall m :: least <= m <= greatest + NUM_OF_GUEST ==> Requested(h, Item(flow, m))
  {
    if GapsAtMost61(h, flow, greatest) {
      forall m | least <= m <= greatest + NUM_OF_GUEST ensures Requested(h, Item(flow, m)) {
        var n := ArrivalBelow(h, flow, least, greatest, m);
        RequestedIffCovered(h, Item(flow, m));
        var j :| 0 <= j < |h| && h[j] == Item(flow, n);
        assert Covers(h[j], Item(flow, m));
      }
    }
    if forall m :: least <= m <= greatest + NUM_OF_GUEST ==> Requested(h, Item(flow, m)) {
      forall n | Arrived(h, flow, n) && n < greatest
        ensures exists n' :: Arrived(h, flow, n') && n < n' <= n + NUM_OF_GUEST + 1
      {
        var m := n + NUM_OF_GUEST + 1;
        assert Requested(h, Item(flow, m));
        RequestedIffCovered(h, Item(flow, m));
        var j :| 0 <= j < |h| && Covers(h[j], Item(flow, m));
        assert Arrived(h, flow, h[j].num);
      }
    }
  }

  /** With small gaps, any number in range has an arrival within sixty below it. */
  lemma {:induction false} ArrivalBelow(h: History, flow: Flow, n: int, greatest: int, m: int) returns (b: int)
    requires GapsAtMost61(h, flow, greatest)
    requires Arrived(h, flow, n) && n <= m <= greatest + NUM_OF_GUEST
    ensures Arrived(h, flow, b) && m - NUM_OF_GUEST <= b <= m
    decreases m - n
  {
    if m <= n + NUM_OF_GUEST {
      b := n;
    } else {
      var n' :| Arrived(h, flow, n') && n < n' <= n + NUM_OF_GUEST + 1;
      b := ArrivalBelow(h, flow, n', greatest, m);
    }
  }

  // ---------- in-order cost ----------

  /** Announcements of the `n` packets after `a`, in order. */
  function InOrder(a: Item, n: nat): History {
    if n == 0 then [] else InOrder(a, n - 1) + [Ahead(a, n)]
  }

  /** In-order announcements cost two Interests each, plus fifty-nine, and leave exactly the next sixty names in the
      table. */
  lemma {:induction false} InOrderCost(a: Item, n: nat)
    requires n >= 1
    ensures Table(InOrder(a, n)) == Window(Ahead(a, n), NUM_OF_GUEST)
    ensures |Log(InOrder(a, n))| == 2 * n + 59
  {
    var h := InOrder(a, n);
    assert h == InOrder(a, n - 1) + [Ahead(a, n)];
    assert h[..n - 1] == InOrder(a, n - 1) by { InOrderLength(a, n - 1); }
    var x := Ahead(a, n);
    if n == 1 {
      AllNew({}, x, NUM_OF_GUEST);
    } else {
      InOrderCost(a, n - 1);
      var w := Ahead(a, n - 1);
      LastNew(w, NUM_OF_GUEST);
      forall m ensures m in Table(h) <==> m in Window(x, NUM_OF_GUEST) {
        WindowMembers(w, NUM_OF_GUEST, m);
        WindowMembers(x, NUM_OF_GUEST, m);
      }
    }
  }

  lemma {:induction false} InOrderLength(a: Item, n: nat)
    ensures |InOrder(a, n)| == n
  {
    if n > 0 { InOrderLength(a, n - 1); }
  }

  lemma {:induction false} AllNew(table: set<Item>, a: Item, k: nat)
    requires table == {}
    ensures |NewGuesses(table, a, k)| == k
  {
    if k > 0 { AllNew(table, a, k - 1); }
  }

  /** After the window of `w`, the announcement of the next packet adds one guess only. */
  lemma LastNew(w: Item, k: nat)
    requires k == NUM_OF_GUEST
    ensures |NewGuesses(Window(w, k), Ahead(w, 1), k)| == 1
  {
    NoneNew(w, k - 1);
    WindowMembers(w, k, Ahead(Ahead(w, 1), k));
  }

  lemma {:induction false} NoneNew(w: Item, k: nat)
    requires k < NUM_OF_GUEST
    ensures NewGuesses(Window(w, NUM_OF_GUEST), Ahead(w, 1), k) == []
  {
    if k > 0 {
      NoneNew(w, k - 1);
      WindowMembers(w, NUM_OF_GUEST, Ahead(Ahead(w, 1), k));
    }
  }
}
