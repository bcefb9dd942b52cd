/** What becomes of one subscription: until its consumer hangs up it stays, in its place among the others. */
module Subscriptions {
  import opened Basics
  import opened Endpoints
  import opened AddressBookModel
  import opened AddressBookRuns

  // ---------------------------------------------------------------- broadcasts

  /** How many of the first `i` subscribers are open. */
  function Rank(subs: seq<Subscriber>, i: nat): nat
    requires i <= |subs|
  {
    if i == 0 then 0 else Rank(subs, i - 1) + if subs[i - 1].closed then 0 else 1
  }

  lemma {:induction false} RankOfPrefix(subs: seq<Subscriber>, n: nat, i: nat)
    requires i <= n <= |subs|
    ensures Rank(subs[..n], i) == Rank(subs, i)
    decreases i
  {
    if i > 0 { RankOfPrefix(subs, n, i - 1); }
  }

  lemma {:induction false} RankGrows(subs: seq<Subscriber>, i: nat, j: nat)
    requires i < j <= |subs| && !subs[i].closed
    ensures Rank(subs, i) < Rank(subs, j)
    decreases j
  {
    if i < j - 1 { RankGrows(subs, i, j - 1); }
  }

  lemma {:induction false} RankAllOpen(subs: seq<Subscriber>, i: nat)
    requires i <= |subs| && forall s <- subs :: !s.closed
    ensures Rank(subs, i) == i
    decreases i
  {
    if i > 0 {
      assert subs[i - 1] in subs;
      RankAllOpen(subs, i - 1);
    }
  }

  lemma {:induction false} BroadcastLength(subs: seq<Subscriber>, c: Change)
    ensures |Broadcast(subs, c)| == Rank(subs, |subs|)
    decreases |subs|
  {
    if subs != [] {
      BroadcastLength(subs[..|subs| - 1], c);
      RankOfPrefix(subs, |subs| - 1, |subs| - 1);
    }
  }

  /** Each open subscriber receives the change; with `BroadcastLength`, no other does, and their order stays. */
  lemma {:induction false} BroadcastTo(subs: seq<Subscriber>, c: Change, i: nat)
    requires i < |subs| && !subs[i].closed
    ensures Rank(subs, i) < |Broadcast(subs, c)| && Broadcast(subs, c)[Rank(subs, i)] == Receive(subs[i], c)
    decreases |subs|
  {
    var n := |subs| - 1;
    RankOfPrefix(subs, n, i);
    if i < n {
      BroadcastTo(subs[..n], c, i);
    } else {
      BroadcastLength(subs[..n], c);
    }
  }

  lemma {:induction false} BroadcastLeavesOpen(subs: seq<Subscriber>, c: Change, i: nat)
    requires i < |Broadcast(subs, c)|
    ensures !Broadcast(subs, c)[i].closed
  {
    var j := BroadcastFrom(subs, c, i);
  }

  lemma {:induction false} BroadcastAllTo(subs: seq<Subscriber>, cs: seq<Change>, i: nat)
    requires cs != [] && i < |subs| && !subs[i].closed
    ensures Rank(subs, i) < |BroadcastAll(subs, cs)| && BroadcastAll(subs, cs)[Rank(subs, i)] == ReceiveAll(subs[i], cs)
    decreases |cs|
  {
    var n, place := |cs| - 1, Rank(subs, i);
    var before := BroadcastAll(subs, cs[..n]);
    if n == 0 {
      BroadcastTo(subs, cs[n], i);
    } else {
      BroadcastAllTo(subs, cs[..n], i);
      ReceiveAllExtends(subs[i], cs[..n]);
      forall j | 0 <= j < |before| ensures !before[j].closed {
        BroadcastLeavesOpen(BroadcastAll(subs, cs[..n][..n - 1]), cs[..n][n - 1], j);
      }
      RankAllOpen(before, place);
      BroadcastTo(before, cs[n], place);
    }
  }

  lemma {:induction false} OpenLength(subs: seq<Subscriber>)
    ensures |Open(subs)| == Rank(subs, |subs|)
    decreases |subs|
  {
    if subs != [] {
      OpenLength(subs[..|subs| - 1]);
      RankOfPrefix(subs, |subs| - 1, |subs| - 1);
    }
  }

  lemma {:induction false} OpenKeeps(subs: seq<Subscriber>, i: nat)
    requires i < |subs| && !subs[i].closed
    ensures Rank(subs, i) < |Open(subs)| && Open(subs)[Rank(subs, i)] == subs[i]
    decreases |subs|
  {
    var n := |subs| - 1;
    RankOfPrefix(subs, n, i);
    if i < n {
      OpenKeeps(subs[..n], i);
    } else {
      OpenLength(subs[..n]);
    }
  }

  lemma {:induction false} ReceiveAllExtends(s: Subscriber, cs: seq<Change>)
    ensures ReceiveAll(s, cs).scopes == s.scopes && ReceiveAll(s, cs).closed == s.closed && s.events <= ReceiveAll(s, cs).events
    ensures |ReceiveAll(s, cs).events| <= |s.events| + |cs|
    decreases |cs|
  {
    if cs != [] { ReceiveAllExtends(s, cs[..|cs| - 1]); }
  }

  // ---------------------------------------------------------------- one step

  /** Where subscriber `i` stands after the step: closed subscribers before it may have been dropped. */
  ghost function PlaceAfter(b: Book, step: Step, i: nat): nat
    requires Faithful(b, step) && i < |b.subs|
  {
    if step.HangStep? || Next(b, step).subs == b.subs then i else Rank(b.subs, i)
  }

  ghost predicate StillThere(s: Subscriber, subs: seq<Subscriber>, j: nat) {
    j < |subs| && !subs[j].closed && subs[j].scopes == s.scopes && s.events <= subs[j].events
  }

  lemma BroadcastStillThere(subs: seq<Subscriber>, cs: seq<Change>, i: nat)
    requires i < |subs| && !subs[i].closed
    ensures var next := BroadcastAll(subs, cs);
            StillThere(subs[i], next, if next == subs then i else Rank(subs, i))
  {
    if cs != [] {
      BroadcastAllTo(subs, cs, i);
      ReceiveAllExtends(subs[i], cs);
    }
  }

  lemma StepKeeps(b: Book, step: Step, i: nat)
    requires Faithful(b, step) && i < |b.subs| && !b.subs[i].closed && step != HangStep(i)
    ensures StillThere(b.subs[i], Next(b, step).subs, PlaceAfter(b, step, i))
  {
    match step
    case InsertStep(bound, e, scope, interface) =>
      var r := Insert(b, bound, e, scope, interface);
      if r.Ok? { BroadcastStillThere(b.subs, [AppearNow(r.value.dir, bound, e)], i); }
    case ReplaceStep(prior, e) =>
      var r := Replace(b, prior, e);
      if r.Ok? && prior != e {
        var bound := Locate(b.dir, prior).value;
        BroadcastStillThere(b.subs, [Vanish(bound, prior), AppearNow(r.value.dir, bound, e)], i);
      }
    case RemoveStep(e) =>
      if Locate(b.dir, e).Some? { BroadcastStillThere(b.subs, [Vanish(Locate(b.dir, e).value, e)], i); }
    case RemoveBoundStep(bound, es) => BroadcastStillThere(b.subs, Vanishes(bound, es) + [Unbind(bound)], i);
    case SetNatStep(bound, natType, es) => BroadcastStillThere(b.subs, Reclassified(bound, es, natType), i);
    case SubscribeStep(scopes, entries) => OpenKeeps(b.subs, i);
    case HangStep(_) =>
  }

  // ---------------------------------------------------------------- every run

  /** Where the subscriber that stands at `i` after `m` steps stands after `n`. */
  ghost function PlaceAt(books: seq<Book>, steps: seq<Step>, m: nat, i: nat, n: nat): nat
    requires IsRun(books, steps) && m <= n <= |steps|
    decreases n
  {
    if n == m then i
    else
      var before := PlaceAt(books, steps, m, i, n - 1);
      if before < |books[n - 1].subs| then PlaceAfter(books[n - 1], steps[n - 1], before) else before
  }

  /** No step between `m` and `n` hangs up the subscriber that stands at `i` after `m` steps. */
  ghost predicate NeverHung(books: seq<Book>, steps: seq<Step>, m: nat, i: nat, n: nat)
    requires IsRun(books, steps) && m <= n <= |steps|
    decreases n
  {
    n == m || (NeverHung(books, steps, m, i, n - 1) && steps[n - 1] != HangStep(PlaceAt(books, steps, m, i, n - 1)))
  }

  lemma StepOfRun(books: seq<Book>, steps: seq<Step>, n: nat, place: nat, s: Subscriber)
    requires IsRun(books, steps) && n < |steps| && StillThere(s, books[n].subs, place) && steps[n] != HangStep(place)
    ensures StillThere(s, books[n + 1].subs, PlaceAfter(books[n], steps[n], place))
  {
    StepKeeps(books[n], steps[n], place);
    assert books[n + 1] == Next(books[n], steps[n]);
  }

  /** Over every run a subscriber stays until it hangs up, with the same scopes, and no event is ever taken back. */
  lemma {:induction false} SubscriptionLasts(books: seq<Book>, steps: seq<Step>, m: nat, i: nat, n: nat)
    requires IsRun(books, steps) && m <= n <= |steps| && i < |books[m].subs| && !books[m].subs[i].closed
    requires NeverHung(books, steps, m, i, n)
    ensures StillThere(books[m].subs[i], books[n].subs, PlaceAt(books, steps, m, i, n))
    decreases n
  {
    if m < n {
      var place := PlaceAt(books, steps, m, i, n - 1);
      SubscriptionLasts(books, steps, m, i, n - 1);
      StepOfRun(books, steps, n - 1, place, books[m].subs[i]);
    }
  }

  /**
   For every run and every subscription made in it and not hung up: it is there at the end, and folding
   its events gives exactly what the directory holds in its scopes.
   */
  lemma EverySubscriptionMirrors(books: seq<Book>, steps: seq<Step>, m: nat, e: EndpointAddr)
    requires IsRun(books, steps) && m < |steps| && steps[m].SubscribeStep?
    requires NeverHung(books, steps, m + 1, |books[m + 1].subs| - 1, |steps|)
    ensures var end, place := books[|steps|], PlaceAt(books, steps, m + 1, |books[m + 1].subs| - 1, |steps|);
            && place < |end.subs| && !end.subs[place].closed && end.subs[place].scopes == steps[m].scopes
            && Fold(end.subs[place].events, e) == Expected(end.dir, steps[m].scopes, e)
  {
    assert books[m + 1] == Next(books[m], steps[m]);
    var i := |books[m + 1].subs| - 1;
    ReceiveAllExtends(Subscriber(steps[m].scopes, {}, [], false), Replay(books[m].dir, steps[m].entries));
    SubscriptionLasts(books, steps, m + 1, i, |steps|);
    EventsMirrorDirectory(books, steps, PlaceAt(books, steps, m + 1, i, |steps|), e, 0);
  }
}
