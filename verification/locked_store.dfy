/** The lock-guarded word-count list of word_count_p.c. The list is the one
    of word_count_l.c; `add_word` takes the list's mutex, searches, raises or
    appends, and releases the mutex on both paths.

    Threads are modelled as a machine: each thread walks through the words it
    has to add, and each `add_word` call is broken into the steps the C code
    takes (acquire, search, update, release). A schedule says which thread
    moves next. The lock makes the search and the update of one call happen
    with no step of another call in between, so every run is equal to the
    sequential list fed the words in the order their updates took place. */
module LockedStore {
  import opened ListStore

  /** `pthread_mutex_t`: free, or held by one thread. */
  datatype Mutex = Free | HeldBy(thread: nat)

  /** `word_count_list_t` of word_count_p.c: the list and its mutex. */
  datatype Shared = Shared(lst: Store, lock: Mutex)

  /** `init_words`: an empty list and an unlocked mutex. */
  function Init(): (sh: Shared)
    ensures sh.lock == Free
    ensures Len(sh) == 0 && forall w :: !HasWord(sh.lst, w)
  {
    Shared(ListStore.Init(), Free)
  }

  /** `len_words`: the size of the list. */
  function Len(sh: Shared): (n: nat)
    ensures n >= |Words(sh.lst)|
    ensures Unique(sh.lst) <==> n == |Words(sh.lst)|
  {
    ListStore.Len(sh.lst)
  }

  /** `find_word`: the first record for `w`, read without the lock. */
  function FindWord(sh: Shared, w: string): (r: Option<nat>)
    ensures r.Some? ==> r.value < |sh.lst| && sh.lst[r.value].word == w
    ensures r.Some? ==> forall j :: 0 <= j < r.value ==> sh.lst[j].word != w
    ensures r.None? <==> !HasWord(sh.lst, w)
  {
    Find(sh.lst, w)
  }

  // ---------------------------------------------------------------------
  // Threads calling add_word
  // ---------------------------------------------------------------------

  /** Where a thread is: between calls, or inside `add_word(w)` before the
      lock, holding it before the search, holding it with the search's
      result, or holding it after the update. */
  datatype Pc =
    | Idle
    | Acquiring(w: string)
    | Searching(w: string)
    | Updating(w: string, found: Option<nat>)
    | Releasing

  /** A thread: where it is and the words it has still to add after the current one. */
  datatype Thread = Thread(pc: Pc, todo: seq<string>)

  /** The shared list, the threads, and the words whose updates have taken
      place, in the order they took place. */
  datatype Machine = Machine(shared: Shared, threads: seq<Thread>, committed: seq<string>)

  /** A thread between the lock and the unlock. */
  predicate Critical(pc: Pc) {
    pc.Searching? || pc.Updating? || pc.Releasing?
  }

  /** One step of thread `t`; a thread that is blocked on the lock, has
      finished, or does not exist does not move. */
  function Step(m: Machine, t: nat): Machine {
    if t >= |m.threads| then m
    else
      var th := m.threads[t];
      var lst := m.shared.lst;
      match th.pc
      case Idle =>
        if |th.todo| == 0 then m
        else m.(threads := m.threads[t := Thread(Acquiring(th.todo[0]), th.todo[1..])])
      case Acquiring(w) =>
        if m.shared.lock.Free? then
          m.(shared := m.shared.(lock := HeldBy(t)), threads := m.threads[t := th.(pc := Searching(w))])
        else m
      case Searching(w) =>
        m.(threads := m.threads[t := th.(pc := Updating(w, Find(lst, w)))])
      case Updating(w, found) =>
        var lst' := match found
          case Some(i) => if i < |lst| then lst[i := lst[i].(count := lst[i].count + 1)] else lst
          case None => lst + [WordCount(w, 1)];
        m.(shared := m.shared.(lst := lst'), threads := m.threads[t := th.(pc := Releasing)],
           committed := m.committed + [w])
      case Releasing =>
        m.(shared := m.shared.(lock := Free), threads := m.threads[t := th.(pc := Idle)])
  }

  /** The machine after the threads move in the order `sched` names them. */
  function Run(m: Machine, sched: seq<nat>): Machine
    decreases |sched|
  {
    if |sched| == 0 then m else Run(Step(m, sched[0]), sched[1..])
  }

  /** `add_word` called with no other thread inside it: the call's four steps
      in a row. A thread that already holds the lock would wait for itself. */
  function AddWord(sh: Shared, w: string): (r: Shared)
    requires sh.lock == Free
    ensures r.lock == Free
    ensures r.lst == Add(sh.lst, w).store
    ensures Unique(sh.lst) ==> Unique(r.lst)
  {
    var m0 := Machine(sh, [Thread(Acquiring(w), [])], []);
    var m1 := Step(m0, 0);
    var m2 := Step(m1, 0);
    var m3 := Step(m2, 0);
    var m4 := Step(m3, 0);
    assert m1.threads[0].pc == Searching(w);
    assert m2.threads[0].pc == Updating(w, Find(sh.lst, w));
    assert m3.shared.lst == Add(sh.lst, w).store;
    AddWithCountUnique(sh.lst, w);
    m4.shared
  }

  lemma AddWithCountUnique(s: Store, w: string)
    ensures Unique(s) ==> Unique(Add(s, w).store)
  {
    assert Add(s, w) == AddWithCount(s, w, 1);
  }

  // ---------------------------------------------------------------------
  // The invariant of every run
  // ---------------------------------------------------------------------

  /** The words a thread has yet to add, the current one included. */
  function Pending(th: Thread): seq<string> {
    match th.pc
    case Acquiring(w) => [w] + th.todo
    case Searching(w) => [w] + th.todo
    case Updating(w, _) => [w] + th.todo
    case Idle => th.todo
    case Releasing => th.todo
  }

  /** The words all threads have yet to add. */
  function AllPending(ts: seq<Thread>): seq<string> {
    if |ts| == 0 then [] else Pending(ts[0]) + AllPending(ts[1..])
  }

  /** Exactly the thread that holds the lock is inside the critical section. */
  ghost predicate MutualExclusion(m: Machine) {
    && (m.shared.lock.HeldBy? ==> m.shared.lock.thread < |m.threads|)
    && forall t :: 0 <= t < |m.threads| ==>
         (Critical(m.threads[t].pc) <==> m.shared.lock == HeldBy(t))
  }

  /** A search's result still describes the list when the update uses it. */
  ghost predicate SearchCurrent(m: Machine) {
    forall t :: 0 <= t < |m.threads| && m.threads[t].pc.Updating? ==>
      m.threads[t].pc.found == Find(m.shared.lst, m.threads[t].pc.w)
  }

  /** The list is the sequential list of word_count_l.c fed the committed words. */
  ghost predicate Serial(m: Machine) {
    m.shared.lst == AddWords(ListStore.Init(), m.committed)
  }

  /** Every word is either committed or still pending, once. */
  ghost predicate Conserved(m: Machine, all: multiset<string>) {
    multiset(m.committed) + multiset(AllPending(m.threads)) == all
  }

  ghost predicate Inv(m: Machine, all: multiset<string>) {
    MutualExclusion(m) && SearchCurrent(m) && Serial(m) && Conserved(m, all)
  }

  lemma {:induction false} AllPendingUpdate(ts: seq<Thread>, t: nat, th: Thread)
    requires t < |ts|
    ensures multiset(AllPending(ts[t := th])) + multiset(Pending(ts[t])) ==
            multiset(AllPending(ts)) + multiset(Pending(th))
    decreases t, 1
  {
    if t == 0 {
      AllPendingUpdateHead(ts, th);
    } else {
      AllPendingUpdateStep(ts, t, th);
    }
  }

  lemma AllPendingUpdateHead(ts: seq<Thread>, th: Thread)
    requires 0 < |ts|
    ensures multiset(AllPending(ts[0 := th])) + multiset(Pending(ts[0])) ==
            multiset(AllPending(ts)) + multiset(Pending(th))
  {
    var ts' := ts[0 := th];
    assert ts'[1..] == ts[1..] && ts'[0] == th;
    AllPendingMultiset(ts');
    AllPendingMultiset(ts);
    var rest := multiset(AllPending(ts[1..]));
    assert forall x :: (multiset(Pending(th)) + rest + multiset(Pending(ts[0])))[x] ==
                       (multiset(Pending(ts[0])) + rest + multiset(Pending(th)))[x];
  }

  /** The inductive step of `AllPendingUpdate`: a thread in front of the updated one. */
  lemma AllPendingUpdateStep(ts: seq<Thread>, t: nat, th: Thread)
    requires 0 < t < |ts|
    ensures multiset(AllPending(ts[t := th])) + multiset(Pending(ts[t])) ==
            multiset(AllPending(ts)) + multiset(Pending(th))
    decreases t, 0
  {
    var ts' := ts[t := th];
    var tail := ts[1..];
    AllPendingUpdate(tail, t - 1, th);
    assert ts'[1..] == tail[t - 1 := th] && ts'[0] == ts[0];
    assert tail[t - 1] == ts[t];
    AllPendingMultiset(ts');
    AllPendingMultiset(ts);
    AddToBoth(multiset(Pending(ts[0])), multiset(AllPending(tail[t - 1 := th])), multiset(Pending(ts[t])),
              multiset(AllPending(tail)), multiset(Pending(th)));
  }

  /** The pending words of a thread list: the first thread's, then the rest's. */
  lemma AllPendingMultiset(ts: seq<Thread>)
    requires 0 < |ts|
    ensures multiset(AllPending(ts)) == multiset(Pending(ts[0])) + multiset(AllPending(ts[1..]))
  {
  }

  /** Adding the same multiset to both sides of an equation keeps it. */
  lemma AddToBoth(h: multiset<string>, a: multiset<string>, o: multiset<string>,
                  b: multiset<string>, n: multiset<string>)
    requires a + o == b + n
    ensures h + a + o == h + b + n
  {
    assert forall x :: (h + a + o)[x] == h[x] + (a + o)[x];
    assert forall x :: (h + b + n)[x] == h[x] + (b + n)[x];
  }

  lemma {:induction false} AddWordsSnoc(s: Store, ws: seq<string>, w: string)
    ensures AddWords(s, ws + [w]) == Add(AddWords(s, ws), w).store
    decreases |ws|
  {
    if |ws| == 0 {
      assert ([] + [w])[1..] == [];
      assert [] + [w] == [w];
    } else {
      assert (ws + [w])[1..] == ws[1..] + [w];
      AddWordsSnoc(Add(s, ws[0]).store, ws[1..], w);
    }
  }

  /** The update step does what `add_word_with_count(lst, w, 1)` does. */
  lemma UpdateIsAdd(lst: Store, w: string)
    ensures (match Find(lst, w)
               case Some(i) => if i < |lst| then lst[i := lst[i].(count := lst[i].count + 1)] else lst
               case None => lst + [WordCount(w, 1)]) == Add(lst, w).store
  {
    assert Add(lst, w) == AddWithCount(lst, w, 1);
  }

  /** A step of thread `t` that changes only that thread and the lock keeps
      the invariant when the thread's pending words stay the same and the
      lock follows the thread into or out of the critical section. */
  lemma LocalStep(m: Machine, all: multiset<string>, t: nat, th: Thread, lock: Mutex)
    requires Inv(m, all) && t < |m.threads|
    requires Pending(th) == Pending(m.threads[t])
    requires th.pc.Updating? ==> th.pc.found == Find(m.shared.lst, th.pc.w)
    requires Critical(th.pc) <==> lock == HeldBy(t)
    requires lock.HeldBy? ==> lock.thread == t || lock == m.shared.lock
    requires lock != m.shared.lock ==> m.shared.lock == Free || m.shared.lock == HeldBy(t)
    ensures Inv(Machine(m.shared.(lock := lock), m.threads[t := th], m.committed), all)
  {
    var m' := Machine(m.shared.(lock := lock), m.threads[t := th], m.committed);
    assert MutualExclusion(m') by {
      LocalMutualExclusion(m, t, th, lock);
    }
    assert SearchCurrent(m') by {
      LocalSearchCurrent(m, t, th, lock);
    }
    assert Conserved(m', all) by {
      ConservedAfter(m, all, t, th, [], m'.shared);
      assert m.committed + [] == m.committed;
    }
  }

  lemma LocalMutualExclusion(m: Machine, t: nat, th: Thread, lock: Mutex)
    requires MutualExclusion(m) && t < |m.threads|
    requires Critical(th.pc) <==> lock == HeldBy(t)
    requires lock.HeldBy? ==> lock.thread == t || lock == m.shared.lock
    requires lock != m.shared.lock ==> m.shared.lock == Free || m.shared.lock == HeldBy(t)
    ensures MutualExclusion(Machine(m.shared.(lock := lock), m.threads[t := th], m.committed))
  {
    var m' := Machine(m.shared.(lock := lock), m.threads[t := th], m.committed);
    forall u | 0 <= u < |m'.threads| && u != t
      ensures Critical(m'.threads[u].pc) <==> m'.shared.lock == HeldBy(u)
    {
      assert m'.threads[u] == m.threads[u];
      assert Critical(m.threads[u].pc) <==> m.shared.lock == HeldBy(u);
    }
  }

  lemma LocalSearchCurrent(m: Machine, t: nat, th: Thread, lock: Mutex)
    requires SearchCurrent(m) && t < |m.threads|
    requires th.pc.Updating? ==> th.pc.found == Find(m.shared.lst, th.pc.w)
    ensures SearchCurrent(Machine(m.shared.(lock := lock), m.threads[t := th], m.committed))
  {
    var m' := Machine(m.shared.(lock := lock), m.threads[t := th], m.committed);
    forall u | 0 <= u < |m'.threads| && u != t && m'.threads[u].pc.Updating?
      ensures m'.threads[u].pc.found == Find(m'.shared.lst, m'.threads[u].pc.w)
    {
      assert m'.threads[u] == m.threads[u];
    }
  }

  lemma StepIdle(m: Machine, all: multiset<string>, t: nat)
    requires Inv(m, all) && t < |m.threads| && m.threads[t].pc.Idle?
    ensures Inv(Step(m, t), all)
  {
    var th := m.threads[t];
    if |th.todo| > 0 {
      var th' := Thread(Acquiring(th.todo[0]), th.todo[1..]);
      assert Pending(th') == th.todo;
      LocalStep(m, all, t, th', m.shared.lock);
      assert Step(m, t) == Machine(m.shared.(lock := m.shared.lock), m.threads[t := th'], m.committed);
    }
  }

  lemma StepAcquiring(m: Machine, all: multiset<string>, t: nat)
    requires Inv(m, all) && t < |m.threads| && m.threads[t].pc.Acquiring?
    ensures Inv(Step(m, t), all)
  {
    var th := m.threads[t];
    if m.shared.lock.Free? {
      var th' := th.(pc := Searching(th.pc.w));
      LocalStep(m, all, t, th', HeldBy(t));
      assert Step(m, t) == Machine(m.shared.(lock := HeldBy(t)), m.threads[t := th'], m.committed);
    }
  }

  lemma StepSearching(m: Machine, all: multiset<string>, t: nat)
    requires Inv(m, all) && t < |m.threads| && m.threads[t].pc.Searching?
    ensures Inv(Step(m, t), all)
  {
    var th := m.threads[t];
    var th' := th.(pc := Updating(th.pc.w, Find(m.shared.lst, th.pc.w)));
    LocalStep(m, all, t, th', m.shared.lock);
    assert Step(m, t) == Machine(m.shared.(lock := m.shared.lock), m.threads[t := th'], m.committed);
  }

  lemma StepReleasing(m: Machine, all: multiset<string>, t: nat)
    requires Inv(m, all) && t < |m.threads| && m.threads[t].pc.Releasing?
    ensures Inv(Step(m, t), all)
  {
    var th := m.threads[t];
    var th' := th.(pc := Idle);
    LocalStep(m, all, t, th', Free);
    assert Step(m, t) == Machine(m.shared.(lock := Free), m.threads[t := th'], m.committed);
  }

  /** The update is the one step that changes the list: it is `add_word` on
      the list as the thread found it, and it commits the thread's word. */
  lemma StepUpdating(m: Machine, all: multiset<string>, t: nat)
    requires Inv(m, all) && t < |m.threads| && m.threads[t].pc.Updating?
    ensures Inv(Step(m, t), all)
    ensures Step(m, t).shared.lst == Add(m.shared.lst, m.threads[t].pc.w).store
    ensures Step(m, t).shared.lock == HeldBy(t)
    ensures Step(m, t).committed == m.committed + [m.threads[t].pc.w]
  {
    var th := m.threads[t];
    var w := th.pc.w;
    var th' := th.(pc := Releasing);
    var lst' := Add(m.shared.lst, w).store;
    var m' := Machine(m.shared.(lst := lst'), m.threads[t := th'], m.committed + [w]);
    UpdateStep(m, t);
    assert Serial(m') by {
      AddWordsSnoc(ListStore.Init(), m.committed, w);
    }
    assert MutualExclusion(m') by {
      UpdateMutualExclusion(m, t, lst');
    }
    assert SearchCurrent(m') by {
      UpdateSearchCurrent(m, t, lst');
    }
    assert Conserved(m', all) by {
      PendingUpdating(th);
      ConservedAfter(m, all, t, th', [w], m'.shared);
    }
  }

  /** An update whose search is current adds the word as `add_word` does. */
  lemma UpdateStep(m: Machine, t: nat)
    requires t < |m.threads| && m.threads[t].pc.Updating?
    requires m.threads[t].pc.found == Find(m.shared.lst, m.threads[t].pc.w)
    ensures Step(m, t) == Machine(m.shared.(lst := Add(m.shared.lst, m.threads[t].pc.w).store),
                                  m.threads[t := m.threads[t].(pc := Releasing)],
                                  m.committed + [m.threads[t].pc.w])
  {
    UpdateIsAdd(m.shared.lst, m.threads[t].pc.w);
  }

  lemma UpdateMutualExclusion(m: Machine, t: nat, lst': Store)
    requires MutualExclusion(m) && t < |m.threads| && m.threads[t].pc.Updating?
    ensures MutualExclusion(Machine(m.shared.(lst := lst'), m.threads[t := m.threads[t].(pc := Releasing)],
                                    m.committed + [m.threads[t].pc.w]))
  {
    var m' := Machine(m.shared.(lst := lst'), m.threads[t := m.threads[t].(pc := Releasing)],
                      m.committed + [m.threads[t].pc.w]);
    forall u | 0 <= u < |m'.threads| && u != t
      ensures Critical(m'.threads[u].pc) <==> m'.shared.lock == HeldBy(u)
    {
      assert m'.threads[u] == m.threads[u];
    }
  }

  /** While thread `t` updates, no other thread is between its search and its update. */
  lemma UpdateSearchCurrent(m: Machine, t: nat, lst': Store)
    requires MutualExclusion(m) && t < |m.threads| && m.threads[t].pc.Updating?
    ensures SearchCurrent(Machine(m.shared.(lst := lst'), m.threads[t := m.threads[t].(pc := Releasing)],
                                  m.committed + [m.threads[t].pc.w]))
  {
    var m' := Machine(m.shared.(lst := lst'), m.threads[t := m.threads[t].(pc := Releasing)],
                      m.committed + [m.threads[t].pc.w]);
    forall u | 0 <= u < |m'.threads| && u != t ensures !m'.threads[u].pc.Updating? {
      assert m'.threads[u] == m.threads[u];
      assert m.shared.lock != HeldBy(u);
    }
  }

  lemma PendingUpdating(th: Thread)
    requires th.pc.Updating?
    ensures Pending(th) == [th.pc.w] + Pending(th.(pc := Releasing))
  {
  }

  /** A step that moves the words `done` of thread `t` from pending to
      committed keeps every word accounted for. */
  lemma ConservedAfter(m: Machine, all: multiset<string>, t: nat, th: Thread, done: seq<string>, shared: Shared)
    requires Conserved(m, all) && t < |m.threads|
    requires Pending(m.threads[t]) == done + Pending(th)
    ensures Conserved(Machine(shared, m.threads[t := th], m.committed + done), all)
  {
    AllPendingUpdate(m.threads, t, th);
    assert multiset(Pending(m.threads[t])) == multiset(done) + multiset(Pending(th));
    assert multiset(m.committed + done) == multiset(m.committed) + multiset(done);
    MoveToCommitted(multiset(m.committed), multiset(done), multiset(AllPending(m.threads)),
                    multiset(AllPending(m.threads[t := th])), multiset(Pending(th)), all);
  }

  /** Moving `d` from the pending words `p` to the committed words `c` keeps the total. */
  lemma MoveToCommitted(c: multiset<string>, d: multiset<string>, p: multiset<string>,
                        p': multiset<string>, q: multiset<string>, all: multiset<string>)
    requires p' + (d + q) == p + q && c + p == all
    ensures c + d + p' == all
  {
    forall x ensures (c + d + p')[x] == all[x] {
      assert (p' + (d + q))[x] == (p + q)[x];
    }
  }

  /** Every step keeps the invariant. */
  lemma StepKeepsInv(m: Machine, all: multiset<string>, t: nat)
    requires Inv(m, all)
    ensures Inv(Step(m, t), all)
  {
    if t < |m.threads| {
      match m.threads[t].pc
      case Idle => StepIdle(m, all, t);
      case Acquiring(_) => StepAcquiring(m, all, t);
      case Searching(_) => StepSearching(m, all, t);
      case Updating(_, _) => StepUpdating(m, all, t);
      case Releasing => StepReleasing(m, all, t);
    }
  }

  /** Every run keeps the invariant, whatever the schedule. */
  lemma {:induction false} RunKeepsInv(m: Machine, all: multiset<string>, sched: seq<nat>)
    requires Inv(m, all)
    ensures Inv(Run(m, sched), all)
    decreases |sched|
  {
    if |sched| > 0 {
      StepKeepsInv(m, all, sched[0]);
      RunKeepsInv(Step(m, sched[0]), all, sched[1..]);
    }
  }

  // ---------------------------------------------------------------------
  // Runs from the start
  // ---------------------------------------------------------------------

  /** One idle thread per list of words, none of them started. */
  function Threads(tokens: seq<seq<string>>): (ts: seq<Thread>)
    ensures |ts| == |tokens|
    ensures forall t :: 0 <= t < |ts| ==> ts[t] == Thread(Idle, tokens[t])
  {
    if |tokens| == 0 then [] else [Thread(Idle, tokens[0])] + Threads(tokens[1..])
  }

  /** All the words, thread after thread. */
  function Flatten(tokens: seq<seq<string>>): seq<string> {
    if |tokens| == 0 then [] else tokens[0] + Flatten(tokens[1..])
  }

  /** The machine before any thread moves: `init_words`, then one thread per list of words. */
  function Start(tokens: seq<seq<string>>): Machine {
    Machine(Init(), Threads(tokens), [])
  }

  lemma {:induction false} PendingAtStart(tokens: seq<seq<string>>)
    ensures AllPending(Threads(tokens)) == Flatten(tokens)
  {
    if |tokens| > 0 {
      assert Threads(tokens)[1..] == Threads(tokens[1..]);
      PendingAtStart(tokens[1..]);
    }
  }

  lemma StartInv(tokens: seq<seq<string>>)
    ensures Inv(Start(tokens), multiset(Flatten(tokens)))
  {
    PendingAtStart(tokens);
  }

  /** A thread with nothing left to do. */
  predicate Finished(th: Thread) {
    th.pc.Idle? && |th.todo| == 0
  }

  predicate AllFinished(m: Machine) {
    forall t :: 0 <= t < |m.threads| ==> Finished(m.threads[t])
  }

  lemma {:induction false} NothingPending(ts: seq<Thread>)
    requires forall t :: 0 <= t < |ts| ==> Finished(ts[t])
    ensures AllPending(ts) == []
  {
    if |ts| > 0 {
      NothingPending(ts[1..]);
    }
  }

  /** Whatever the interleaving, once every thread has finished: the lock is
      free, the list is the sequential list fed every word in the order the
      updates took place, no word has two records, and each word's count is
      the number of times the threads added it. */
  lemma FinishedRun(tokens: seq<seq<string>>, sched: seq<nat>)
    requires AllFinished(Run(Start(tokens), sched))
    ensures var m := Run(Start(tokens), sched);
            && m.shared.lock == Free
            && m.shared.lst == AddWords(ListStore.Init(), m.committed)
            && multiset(m.committed) == multiset(Flatten(tokens))
            && Unique(m.shared.lst)
            && forall w :: CountOf(m.shared.lst, w) == multiset(Flatten(tokens))[w]
  {
    StartInv(tokens);
    RunKeepsInv(Start(tokens), multiset(Flatten(tokens)), sched);
    FinishedMachine(Run(Start(tokens), sched), multiset(Flatten(tokens)));
  }

  lemma FinishedMachine(m: Machine, all: multiset<string>)
    requires Inv(m, all) && AllFinished(m)
    ensures m.shared.lock == Free
    ensures multiset(m.committed) == all
    ensures Unique(m.shared.lst)
    ensures forall w :: CountOf(m.shared.lst, w) == all[w]
  {
    assert multiset(m.committed) == all by {
      NothingPending(m.threads);
      assert multiset(AllPending(m.threads)) == multiset{};
    }
    assert m.shared.lock == Free by {
      assert forall t :: 0 <= t < |m.threads| ==> !Critical(m.threads[t].pc);
    }
    AddWordsFromInit(m.committed);
  }

  /** Two interleavings that both finish give every word the same count. */
  lemma InterleavingsAgree(tokens: seq<seq<string>>, sched1: seq<nat>, sched2: seq<nat>)
    requires AllFinished(Run(Start(tokens), sched1)) && AllFinished(Run(Start(tokens), sched2))
    ensures forall w :: CountOf(Run(Start(tokens), sched1).shared.lst, w) ==
                        CountOf(Run(Start(tokens), sched2).shared.lst, w)
  {
    FinishedRun(tokens, sched1);
    FinishedRun(tokens, sched2);
  }

  /** Two threads adding the same word: after both calls there is one record with count two. */
  lemma TwoThreadsSameWord(sched: seq<nat>)
    requires AllFinished(Run(Start([["x"], ["x"]]), sched))
    ensures Run(Start([["x"], ["x"]]), sched).shared.lst == [WordCount("x", 2)]
  {
    var tokens := [["x"], ["x"]];
    var m := Run(Start(tokens), sched);
    FinishedRun(tokens, sched);
    FlattenTwo("x");
    TwoOfTheSame(m.committed, "x");
    AddTwice("x");
  }

  lemma FlattenTwo(x: string)
    ensures Flatten([[x], [x]]) == [x, x]
  {
    assert [[x], [x]][1..] == [[x]];
    assert [[x]][1..] == [];
    assert Flatten([[x]]) == [x] + [];
    assert [x] + ([x] + []) == [x, x];
  }

  lemma TwoOfTheSame(c: seq<string>, x: string)
    requires multiset(c) == multiset([x, x])
    ensures c == [x, x]
  {
    assert |c| == |multiset(c)| == 2;
    assert c[0] in multiset(c);
    assert c[1] in multiset(c);
  }

  lemma AddTwice(x: string)
    ensures AddWords(ListStore.Init(), [x, x]) == [WordCount(x, 2)]
  {
    var one := Add(ListStore.Init(), x).store;
    assert one == [WordCount(x, 1)];
    assert HasWord(one, x);
    assert [x, x][1..] == [x];
    assert [x][1..] == [];
    var two := Add(one, x);
    assert two.at == 0 && |two.store| == 1;
    assert two.store == [WordCount(x, 2)];
    assert AddWords(ListStore.Init(), [x, x]) == AddWords(one, [x]);
    assert AddWords(one, [x]) == AddWords(two.store, []);
  }
}
