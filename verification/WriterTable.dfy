/** getOrCreateWriter under concurrency: a read-locked lookup, then a second lookup under the write lock
    before a writer is created. */
module WriterTable {
  import opened Bytes

  type Thread = nat

  /** Where a caller stands; `k` is the key it asks for and `w` the writer it got. */
  datatype Place<K> =
    | Outside
    | Reading(k: K)               // holds the read lock
    | Missed(k: K)                // found nothing, holds no lock
    | Checking(k: K)              // holds the write lock
    | Creating(k: K)              // second lookup found nothing either
    | Inserting(k: K, w: nat)     // NewDayWriter returned
    | Returned(k: K, w: nat)

  /** The lock, the table from keys to writers, and the keys of all writers ever created, by number. */
  datatype State<K> = State(
    readers: set<Thread>, holder: Option<Thread>,
    table: map<K, nat>, created: seq<K>, at: map<Thread, Place<K>>)

  datatype Event<K> =
    | Ask(k: K)      // takes the read lock
    | Look           // first lookup, then gives the read lock back
    | Lock           // takes the write lock
    | LookAgain      // second lookup
    | Create         // NewDayWriter succeeds
    | CreateFails    // NewDayWriter returns an error
    | Insert         // stores the writer, gives the write lock back

  function At<K>(s: State<K>, t: Thread): Place<K> {
    if t in s.at then s.at[t] else Outside
  }

  predicate Enabled<K>(s: State<K>, t: Thread, ev: Event<K>) {
    match ev
    case Ask(_) => (At(s, t).Outside? || At(s, t).Returned?) && s.holder == None
    case Look => At(s, t).Reading?
    case Lock => At(s, t).Missed? && s.holder == None && s.readers == {}
    case LookAgain => At(s, t).Checking?
    case Create => At(s, t).Creating?
    case CreateFails => At(s, t).Creating?
    case Insert => At(s, t).Inserting?
  }

  function Go<K>(s: State<K>, t: Thread, p: Place<K>): State<K> {
    s.(at := s.at[t := p])
  }

  function Apply<K(==)>(s: State<K>, t: Thread, ev: Event<K>): State<K>
    requires Enabled(s, t, ev)
  {
    var p := At(s, t);
    match ev
    case Ask(k) => Go(s, t, Reading(k)).(readers := s.readers + {t})
    case Look =>
      Go(s, t, if p.k in s.table then Returned(p.k, s.table[p.k]) else Missed(p.k)).(readers := s.readers - {t})
    case Lock => Go(s, t, Checking(p.k)).(holder := Some(t))
    case LookAgain =>
      if p.k in s.table then Go(s, t, Returned(p.k, s.table[p.k])).(holder := None)
      else Go(s, t, Creating(p.k))
    case Create => Go(s, t, Inserting(p.k, |s.created|)).(created := s.created + [p.k])
    case CreateFails => Go(s, t, Outside).(holder := None)
    case Insert => Go(s, t, Returned(p.k, p.w)).(holder := None, table := s.table[p.k := p.w])
  }

  const NOBODY: set<Thread> := {}

  function Init<K>(): State<K> { State(NOBODY, None, map[], [], map[]) }

  /** Lock discipline: exactly the threads in their first lookup hold the read lock, exactly the thread past Lock
      holds the write lock, and the two exclude each other. */
  ghost predicate Locked<K>(s: State<K>) {
    && (s.holder.Some? ==> s.readers == {})
    && (forall t :: t in s.readers <==> t in s.at && s.at[t].Reading?)
    && (forall t :: s.holder == Some(t) <==> t in s.at && Writing(s.at[t]))
  }

  predicate Writing<K>(p: Place<K>) { p.Checking? || p.Creating? || p.Inserting? }

  /** A created writer is in the table under its key, or its creator is about to put it there. */
  predicate Placed<K(==)>(s: State<K>, i: nat)
    requires i < |s.created|
  {
    var k := s.created[i];
    if k in s.table then s.table[k] == i
    else s.holder.Some? && At(s, s.holder.value) == Inserting(k, i)
  }

  ghost predicate Inv<K>(s: State<K>) {
    && Locked(s)
    && (forall k :: k in s.table ==> s.table[k] < |s.created| && s.created[s.table[k]] == k)
    && (forall i :: 0 <= i < |s.created| ==> Placed(s, i))
    && (forall t :: t in s.at ==>
          match s.at[t]
          case Creating(k) => k !in s.table
          case Inserting(k, w) => k !in s.table && w < |s.created| && s.created[w] == k
          case Returned(k, w) => k in s.table && s.table[k] == w
          case _ => true)
  }

  lemma StepKeepsLock<K>(s: State<K>, t: Thread, ev: Event<K>)
    requires Locked(s) && Enabled(s, t, ev)
    ensures Locked(Apply(s, t, ev))
  {
  }

  lemma StepKeepsInv<K>(s: State<K>, t: Thread, ev: Event<K>)
    requires Inv(s) && Enabled(s, t, ev)
    ensures Inv(Apply(s, t, ev))
  {
    var u := Apply(s, t, ev);
    StepKeepsLock(s, t, ev);
    assert forall x :: x in u.at && x != t ==> x in s.at && u.at[x] == s.at[x];
    StepKeepsPlaces(s, t, ev);
  }

  lemma StepKeepsPlaces<K>(s: State<K>, t: Thread, ev: Event<K>)
    requires Inv(s) && Enabled(s, t, ev)
    ensures var u := Apply(s, t, ev); forall i :: 0 <= i < |u.created| ==> Placed(u, i)
  {
    var u := Apply(s, t, ev);
    forall i | 0 <= i < |u.created|
      ensures Placed(u, i)
    {
      if i < |s.created| {
        assert Placed(s, i);
      }
    }
  }

  // ----- callers get their writers

  /** In the middle of a call. */
  predicate Calling<K>(p: Place<K>) { !p.Outside? && !p.Returned? }

  /** What a thread does next in the middle of a call. */
  function Next<K>(p: Place<K>): Event<K>
    requires Calling(p)
  {
    match p
    case Reading(_) => Look
    case Missed(_) => Lock
    case Checking(_) => LookAgain
    case Creating(_) => Create
    case Inserting(_, _) => Insert
  }

  /** No deadlock: while any call is under way, some call can take its next step. */
  lemma NoDeadlock<K>(s: State<K>, t: Thread)
    requires Inv(s) && Calling(At(s, t))
    ensures exists x: Thread :: Calling(At(s, x)) && Enabled(s, x, Next(At(s, x)))
  {
    if s.holder.Some? {
      var x := s.holder.value;
      assert Calling(At(s, x)) && Enabled(s, x, Next(At(s, x)));
    } else if s.readers != {} {
      assert (forall x: Thread :: x !in s.readers) ==> s.readers == {};
      var x :| x in s.readers;
      assert Calling(At(s, x)) && Enabled(s, x, Next(At(s, x)));
    } else {
      assert Calling(At(s, t)) && Enabled(s, t, Next(At(s, t)));
    }
  }

  /** A call for a key in the table returns its writer after the first lookup; no write lock is taken and nothing
      is created. */
  lemma CallFinds<K>(s: State<K>, t: Thread, k: K)
    requires Inv(s) && s.holder == None && !Calling(At(s, t)) && k in s.table
    ensures Enabled(s, t, Ask(k))
    ensures Enabled(Apply(s, t, Ask(k)), t, Look)
    ensures Apply(Apply(s, t, Ask(k)), t, Look) == s.(at := s.at[t := Returned(k, s.table[k])])
  {
    var u := Apply(s, t, Ask(k));
    assert t !in s.readers;
    assert u.readers - {t} == s.readers;
    assert u.at[t := Returned(k, s.table[k])] == s.at[t := Returned(k, s.table[k])];
  }

  /** A call for a missing key, left alone, creates one writer, puts it into the table, gives both locks back and
      returns it; or, if it cannot be created, leaves everything as it was. */
  lemma CallCreates<K>(s: State<K>, t: Thread, k: K)
    requires Inv(s) && s.holder == None && s.readers == {} && !Calling(At(s, t)) && k !in s.table
    ensures Run(s, [(t, Ask(k)), (t, Look), (t, Lock), (t, LookAgain), (t, Create), (t, Insert)])
      == Some(s.(table := s.table[k := |s.created|], created := s.created + [k],
                 at := s.at[t := Returned(k, |s.created|)]))
    ensures Run(s, [(t, Ask(k)), (t, Look), (t, Lock), (t, LookAgain), (t, CreateFails)])
      == Some(s.(at := s.at[t := Outside]))
  {
    hide Inv, Enabled, Apply;
    var creating := s.(at := s.at[t := Creating(k)], holder := Some(t));
    CallReaches(s, t, k, [(t, Create), (t, Insert)]);
    CallReaches(s, t, k, [(t, CreateFails)]);
    CreatesOrFails(s, creating, t, k);
    var inserting := Apply(creating, t, Create);
    RunOne(creating, t, Create, [(t, Insert)]);
    RunOne(inserting, t, Insert, []);
    RunOne(creating, t, CreateFails, []);
    assert [(t, Ask(k)), (t, Look), (t, Lock), (t, LookAgain)] + [(t, Create), (t, Insert)]
      == [(t, Ask(k)), (t, Look), (t, Lock), (t, LookAgain), (t, Create), (t, Insert)];
    assert [(t, Ask(k)), (t, Look), (t, Lock), (t, LookAgain)] + [(t, CreateFails)]
      == [(t, Ask(k)), (t, Look), (t, Lock), (t, LookAgain), (t, CreateFails)];
  }

  lemma CreatesOrFails<K>(s: State<K>, creating: State<K>, t: Thread, k: K)
    requires creating == s.(at := s.at[t := Creating(k)], holder := Some(t)) && s.holder == None
    ensures Enabled(creating, t, CreateFails) && Apply(creating, t, CreateFails) == s.(at := s.at[t := Outside])
    ensures Enabled(creating, t, Create) && Enabled(Apply(creating, t, Create), t, Insert)
    ensures Apply(Apply(creating, t, Create), t, Insert)
      == s.(table := s.table[k := |s.created|], created := s.created + [k], at := s.at[t := Returned(k, |s.created|)])
  {
    var inserting := Apply(creating, t, Create);
    assert inserting.at == s.at[t := Inserting(k, |s.created|)];
    assert inserting.at[t := Returned(k, |s.created|)] == s.at[t := Returned(k, |s.created|)];
    assert creating.at[t := Outside] == s.at[t := Outside];
  }

  /** The way to the point where the second lookup has found nothing. */
  lemma CallReaches<K>(s: State<K>, t: Thread, k: K, more: seq<(Thread, Event<K>)>)
    requires s.holder == None && s.readers == {} && !Calling(At(s, t)) && k !in s.table
    ensures Run(s, [(t, Ask(k)), (t, Look), (t, Lock), (t, LookAgain)] + more)
      == Run(s.(at := s.at[t := Creating(k)], holder := Some(t)), more)
  {
    hide Run;
    var asked := s.(at := s.at[t := Reading(k)], readers := {t});
    var missed := s.(at := s.at[t := Missed(k)]);
    var checking := s.(at := s.at[t := Checking(k)], holder := Some(t));
    var creating := s.(at := s.at[t := Creating(k)], holder := Some(t));
    assert Enabled(s, t, Ask(k)) && s.readers + {t} == {t} && Apply(s, t, Ask(k)) == asked;
    assert asked.at[t := Missed(k)] == missed.at && {t} - {t} == s.readers;
    assert Enabled(asked, t, Look) && Apply(asked, t, Look) == missed;
    assert missed.at[t := Checking(k)] == checking.at;
    assert Enabled(missed, t, Lock) && Apply(missed, t, Lock) == checking;
    assert checking.at[t := Creating(k)] == creating.at;
    assert Enabled(checking, t, LookAgain) && Apply(checking, t, LookAgain) == creating;
    RunOne(checking, t, LookAgain, more);
    RunOne(missed, t, Lock, [(t, LookAgain)] + more);
    RunOne(asked, t, Look, [(t, Lock)] + ([(t, LookAgain)] + more));
    RunOne(s, t, Ask(k), [(t, Look)] + ([(t, Lock)] + ([(t, LookAgain)] + more)));
    assert [(t, Ask(k)), (t, Look), (t, Lock), (t, LookAgain)] + more
      == [(t, Ask(k))] + ([(t, Look)] + ([(t, Lock)] + ([(t, LookAgain)] + more)));
  }

  lemma RunOne<K>(s: State<K>, t: Thread, ev: Event<K>, evs: seq<(Thread, Event<K>)>)
    requires Enabled(s, t, ev)
    ensures Run(s, [(t, ev)] + evs) == Run(Apply(s, t, ev), evs) && Run(s, []) == Some(s)
    ensures evs == [] ==> Run(s, [(t, ev)]) == Some(Apply(s, t, ev))
  {
    hide Enabled, Apply;
    assert ([(t, ev)] + evs)[1..] == evs;
    assert [(t, ev)] + [] == [(t, ev)];
  }

  function Run<K(==)>(s: State<K>, evs: seq<(Thread, Event<K>)>): Option<State<K>>
    decreases |evs|
  {
    if evs == [] then Some(s)
    else if Enabled(s, evs[0].0, evs[0].1) then Run(Apply(s, evs[0].0, evs[0].1), evs[1..])
    else None
  }

  lemma {:induction false} RunKeepsInv<K>(s: State<K>, evs: seq<(Thread, Event<K>)>)
    requires Inv(s)
    ensures var u := Run(s, evs); u.Some? ==> Inv(u.value)
    decreases |evs|
  {
    hide Inv, Apply, Enabled;
    if evs != [] && Enabled(s, evs[0].0, evs[0].1) {
      StepKeepsInv(s, evs[0].0, evs[0].1);
      RunKeepsInv(Apply(s, evs[0].0, evs[0].1), evs[1..]);
    }
  }

  /** The number of the writer that thread t holds for key k. */
  predicate Holds<K(==)>(s: State<K>, t: Thread, k: K, w: nat) {
    t in s.at && s.at[t] == Returned(k, w)
  }

  /** Whatever the interleaving of any number of callers: no key ever gets a second writer, and callers of
      one key that have returned hold the same one, the one in the table. */
  lemma OneWriterPerKey<K>(evs: seq<(Thread, Event<K>)>)
    ensures var u := Run(Init(), evs); u.Some? ==>
      && (forall i, j :: 0 <= i < j < |u.value.created| ==> u.value.created[i] != u.value.created[j])
      && (forall a, b, k, v, w :: Holds(u.value, a, k, v) && Holds(u.value, b, k, w) ==> v == w)
      && (forall t, k, w :: Holds(u.value, t, k, w) ==> k in u.value.table && u.value.table[k] == w)
  {
    hide Run;
    RunKeepsInv(Init(), evs);
    var u := Run(Init(), evs);
    if u.Some? {
      forall i, j | 0 <= i < j < |u.value.created|
        ensures u.value.created[i] != u.value.created[j]
      {
        assert Placed(u.value, i) && Placed(u.value, j);
      }
    }
  }
}
