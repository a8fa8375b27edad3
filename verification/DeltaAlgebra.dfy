/** Computing the delta between two critical states, and applying it. */
module DeltaAlgebra {
  import opened Words
  import opened Common
  import opened AirErrors
  import opened CriticalStates
  import opened Sorting
  import opened DeltaCodec

  // ----- what a delta must say ----------------------------------------------------

  predicate Differs(a: State, b: State, id: u16) {
    if id in a && id in b then a[id] != b[id] else (id in a) != (id in b)
  }

  /** The update that gives field `id` the value it has in `b`. */
  function UpdateFor(b: State, id: u16): SymbolUpdate {
    if id in b then Set(id, b[id]) else Delete(id)
  }

  /** Every differing field once, with its new value, and nothing else. */
  ghost predicate ListsChanges(us: seq<SymbolUpdate>, a: State, b: State) {
    DistinctKeys(us, UpdateId)
    && forall u: SymbolUpdate :: u in us <==> Differs(a, b, u.id) && u == UpdateFor(b, u.id)
  }

  function DifferingIds(a: State, b: State): set<u16> {
    set id | id in a.Keys + b.Keys && Differs(a, b, id)
  }

  // ----- between ---------------------------------------------------------------------

  /** The update for one field of the old state, if it changed. */
  function OldFieldUpdate(e: Entry, b: State): seq<SymbolUpdate> {
    if e.id !in b then [Delete(e.id)] else if b[e.id] != e.value then [Set(e.id, b[e.id])] else []
  }

  function FromBefore(es: seq<Entry>, b: State): seq<SymbolUpdate> {
    if es == [] then [] else FromBefore(es[..|es| - 1], b) + OldFieldUpdate(es[|es| - 1], b)
  }

  function NewFieldUpdate(e: Entry, a: State): seq<SymbolUpdate> {
    if e.id !in a then [Set(e.id, e.value)] else []
  }

  function FromAfter(es: seq<Entry>, a: State): seq<SymbolUpdate> {
    if es == [] then [] else FromAfter(es[..|es| - 1], a) + NewFieldUpdate(es[|es| - 1], a)
  }

  function Unsorted(a: State, b: State): seq<SymbolUpdate> {
    FromBefore(Entries(a, 0), b) + FromAfter(Entries(b, 0), a)
  }

  datatype Source = Source(sourceId: u32, epoch: u32, messageId: u32)

  function DeltaOf(sha: Sha256, src: Source, a: State, b: State, residuals: seq<Residual>): SemanticDelta
    requires StateOk(a) && StateOk(b)
  {
    SemanticDelta(src.sourceId, src.epoch, src.messageId, CriticalHashOf(sha, a), CriticalHashOf(sha, b),
                  SortByKey(Unsorted(a, b), UpdateId), residuals)
  }

  function BetweenOf(sha: Sha256, src: Source, a: State, b: State, residuals: seq<Residual>): Result<SemanticDelta>
    requires StateOk(a) && StateOk(b)
  {
    var delta := DeltaOf(sha, src, a, b, residuals);
    var _ :- Validate(delta);
    Ok(delta)
  }

  method Between(sha: Sha256, src: Source, before: CriticalState, after: CriticalState, residuals: seq<Residual>)
    returns (r: Result<SemanticDelta>)
    requires before.Valid() && after.Valid()
    ensures r == BetweenOf(sha, src, before.fields, after.fields, residuals)
  {
    hide Entries, CriticalHashOf, Validate, SortByKey, OldFieldUpdate, NewFieldUpdate, StateOk;
    var updates: seq<SymbolUpdate> := [];
    var olds := Entries(before.fields, 0);
    for i := 0 to |olds|
      invariant updates == FromBefore(olds[..i], after.fields)
    {
      assert olds[..i + 1][..i] == olds[..i];
      updates := updates + OldFieldUpdate(olds[i], after.fields);
    }
    assert olds[..|olds|] == olds;
    ghost var first := updates;
    var news := Entries(after.fields, 0);
    for i := 0 to |news|
      invariant updates == first + FromAfter(news[..i], before.fields)
    {
      assert news[..i + 1][..i] == news[..i];
      updates := updates + NewFieldUpdate(news[i], before.fields);
    }
    assert news[..|news|] == news;
    updates := SortByKey(updates, UpdateId);
    var baseHash := before.CriticalHash(sha);
    var resultHash := after.CriticalHash(sha);
    var delta := SemanticDelta(src.sourceId, src.epoch, src.messageId, baseHash, resultHash, updates, residuals);
    var _ :- Validate(delta);
    return Ok(delta);
  }

  /** `ids` grow strictly along the entries. */
  ghost predicate IdsGrow(es: seq<Entry>) {
    forall i, j :: 0 <= i < j < |es| ==> es[i].id < es[j].id
  }

  lemma {:induction false} FromBeforeLists(es: seq<Entry>, b: State)
    requires IdsGrow(es)
    ensures DistinctKeys(FromBefore(es, b), UpdateId)
    ensures forall u :: u in FromBefore(es, b) <==> exists i :: 0 <= i < |es| && u in OldFieldUpdate(es[i], b)
  {
    hide OldFieldUpdate, Entries;
    if es != [] {
      var n := |es| - 1;
      var front := es[..n];
      FromBeforeLists(front, b);
      forall u, v | u in FromBefore(front, b) && v in OldFieldUpdate(es[n], b) ensures u.id != v.id {
        var i :| 0 <= i < n && u in OldFieldUpdate(front[i], b);
        OldFieldFacts(front[i], b, u);
        OldFieldFacts(es[n], b, v);
      }
      OldFieldDistinct(es[n], b);
      forall u | u in FromBefore(front, b) ensures exists i :: 0 <= i < |es| && u in OldFieldUpdate(es[i], b) {
        var i :| 0 <= i < n && u in OldFieldUpdate(front[i], b);
        assert u in OldFieldUpdate(es[i], b);
      }
      forall u, i | 0 <= i < |es| && u in OldFieldUpdate(es[i], b) ensures u in FromBefore(es, b) {
        if i < n { assert u in OldFieldUpdate(front[i], b); }
      }
    }
  }

  lemma OldFieldFacts(e: Entry, b: State, u: SymbolUpdate)
    ensures u in OldFieldUpdate(e, b) <==> u == UpdateFor(b, e.id) && (e.id in b ==> b[e.id] != e.value)
    ensures u in OldFieldUpdate(e, b) ==> u.id == e.id
  {}

  lemma OldFieldDistinct(e: Entry, b: State)
    ensures DistinctKeys(OldFieldUpdate(e, b), UpdateId)
  {}

  lemma NewFieldFacts(e: Entry, a: State, u: SymbolUpdate)
    ensures u in NewFieldUpdate(e, a) <==> u == Set(e.id, e.value) && e.id !in a
    ensures DistinctKeys(NewFieldUpdate(e, a), UpdateId)
  {}

  lemma {:induction false} FromAfterLists(es: seq<Entry>, a: State)
    requires IdsGrow(es)
    ensures DistinctKeys(FromAfter(es, a), UpdateId)
    ensures forall u :: u in FromAfter(es, a) <==> exists i :: 0 <= i < |es| && u in NewFieldUpdate(es[i], a)
  {
    hide NewFieldUpdate, Entries;
    if es != [] {
      var n := |es| - 1;
      var front := es[..n];
      FromAfterLists(front, a);
      forall u, v | u in FromAfter(front, a) && v in NewFieldUpdate(es[n], a) ensures u.id != v.id {
        var i :| 0 <= i < n && u in NewFieldUpdate(front[i], a);
        NewFieldFacts(front[i], a, u);
        NewFieldFacts(es[n], a, v);
      }
      NewFieldFacts(es[n], a, Delete(0));
      forall u | u in FromAfter(front, a) ensures exists i :: 0 <= i < |es| && u in NewFieldUpdate(es[i], a) {
        var i :| 0 <= i < n && u in NewFieldUpdate(front[i], a);
        assert u in NewFieldUpdate(es[i], a);
      }
      forall u, i | 0 <= i < |es| && u in NewFieldUpdate(es[i], a) ensures u in FromAfter(es, a) {
        if i < n { assert u in NewFieldUpdate(front[i], a); }
      }
    }
  }

  lemma BeforePart(a: State, b: State, u: SymbolUpdate)
    ensures u in FromBefore(Entries(a, 0), b) <==> u.id in a && Differs(a, b, u.id) && u == UpdateFor(b, u.id)
  {
    hide Entries, OldFieldUpdate, FromBefore;
    var es := Entries(a, 0);
    EntriesHold(a, 0);
    FromBeforeLists(es, b);
    if u in FromBefore(es, b) {
      var i :| 0 <= i < |es| && u in OldFieldUpdate(es[i], b);
      OldFieldFacts(es[i], b, u);
    }
    if u.id in a && Differs(a, b, u.id) && u == UpdateFor(b, u.id) {
      assert Entry(u.id, a[u.id]) in es;
      var i :| 0 <= i < |es| && es[i] == Entry(u.id, a[u.id]);
      OldFieldFacts(es[i], b, u);
    }
  }

  lemma AfterPart(a: State, b: State, u: SymbolUpdate)
    ensures u in FromAfter(Entries(b, 0), a) <==> u.id !in a && Differs(a, b, u.id) && u == UpdateFor(b, u.id)
  {
    hide Entries, NewFieldUpdate, FromAfter;
    var es := Entries(b, 0);
    EntriesHold(b, 0);
    FromAfterLists(es, a);
    if u in FromAfter(es, a) {
      var i :| 0 <= i < |es| && u in NewFieldUpdate(es[i], a);
      NewFieldFacts(es[i], a, u);
    }
    if u.id !in a && Differs(a, b, u.id) && u == UpdateFor(b, u.id) {
      assert Entry(u.id, b[u.id]) in es;
      var i :| 0 <= i < |es| && es[i] == Entry(u.id, b[u.id]);
      NewFieldFacts(es[i], a, u);
    }
  }

  lemma UnsortedLists(a: State, b: State)
    ensures ListsChanges(Unsorted(a, b), a, b)
  {
    hide Entries, FromBefore, FromAfter, Differs, UpdateFor;
    EntriesHold(a, 0);
    EntriesHold(b, 0);
    FromBeforeLists(Entries(a, 0), b);
    FromAfterLists(Entries(b, 0), a);
    forall u: SymbolUpdate
      ensures u in Unsorted(a, b) <==> Differs(a, b, u.id) && u == UpdateFor(b, u.id)
    {
      BeforePart(a, b, u);
      AfterPart(a, b, u);
    }
    forall u, v | u in FromBefore(Entries(a, 0), b) && v in FromAfter(Entries(b, 0), a) ensures u.id != v.id {
      BeforePart(a, b, u);
      AfterPart(a, b, v);
    }
  }

  lemma ListsPermuted(us: seq<SymbolUpdate>, vs: seq<SymbolUpdate>, a: State, b: State)
    requires ListsChanges(us, a, b) && multiset(us) == multiset(vs)
    ensures ListsChanges(vs, a, b)
  {
    hide Differs, UpdateFor;
    DistinctPermuted(us, vs, UpdateId);
    forall u: SymbolUpdate ensures u in us <==> u in vs {
      assert u in us <==> u in multiset(us);
      assert u in vs <==> u in multiset(vs);
    }
  }

  /** `between` lists exactly the differing fields, by increasing id. */
  lemma BetweenLists(sha: Sha256, src: Source, a: State, b: State, residuals: seq<Residual>)
    requires StateOk(a) && StateOk(b)
    ensures var us := DeltaOf(sha, src, a, b, residuals).updates;
            ListsChanges(us, a, b) && StrictlySorted(us, UpdateId) && |us| == |DifferingIds(a, b)|
  {
    hide Unsorted, SortByKey, ListsChanges, CriticalHashOf, StateOk;
    UnsortedLists(a, b);
    var us := SortByKey(Unsorted(a, b), UpdateId);
    SortSorts(Unsorted(a, b), UpdateId);
    ListsPermuted(Unsorted(a, b), us, a, b);
    SortedChanges(us, a, b);
    ChangesCount(us, a, b);
  }

  lemma SortedChanges(us: seq<SymbolUpdate>, a: State, b: State)
    requires ListsChanges(us, a, b) && Sorted(us, UpdateId)
    ensures StrictlySorted(us, UpdateId)
  {}

  function Ids(us: seq<SymbolUpdate>): (s: set<u16>)
  {
    if us == [] then {} else {us[0].id} + Ids(us[1..])
  }

  lemma {:induction false} IdsMember(us: seq<SymbolUpdate>, id: u16)
    ensures id in Ids(us) <==> exists i :: 0 <= i < |us| && us[i].id == id
  {
    if us != [] {
      IdsMember(us[1..], id);
      if id in Ids(us[1..]) {
        var i :| 0 <= i < |us[1..]| && us[1..][i].id == id;
        assert us[i + 1].id == id;
      }
      forall i | 0 <= i < |us| && us[i].id == id ensures id in Ids(us) {
        if i > 0 { assert us[1..][i - 1].id == id; }
      }
    }
  }

  lemma {:induction false} IdsCount(us: seq<SymbolUpdate>)
    requires DistinctKeys(us, UpdateId)
    ensures |Ids(us)| == |us|
  {
    if us != [] {
      forall i, j | 0 <= i < j < |us[1..]| ensures UpdateId(us[1..][i]) != UpdateId(us[1..][j]) {
        assert UpdateId(us[i + 1]) != UpdateId(us[j + 1]);
      }
      IdsCount(us[1..]);
      IdsMember(us[1..], us[0].id);
      forall i | 0 <= i < |us[1..]| ensures us[1..][i].id != us[0].id {
        assert UpdateId(us[0]) != UpdateId(us[i + 1]);
      }
    }
  }

  lemma ChangesIds(us: seq<SymbolUpdate>, a: State, b: State)
    requires ListsChanges(us, a, b)
    ensures Ids(us) == DifferingIds(a, b)
  {
    hide UpdateFor;
    forall id: u16 ensures id in Ids(us) <==> id in DifferingIds(a, b) {
      IdsMember(us, id);
      ChangedIdListed(us, a, b, id);
    }
  }

  lemma ChangedIdListed(us: seq<SymbolUpdate>, a: State, b: State, id: u16)
    requires ListsChanges(us, a, b)
    ensures (exists i :: 0 <= i < |us| && us[i].id == id) <==> Differs(a, b, id)
  {
    if Differs(a, b, id) {
      assert UpdateFor(b, id).id == id;
      assert UpdateFor(b, id) in us;
    }
    forall i | 0 <= i < |us| && us[i].id == id ensures Differs(a, b, id) { assert us[i] in us; }
  }

  lemma ChangesCount(us: seq<SymbolUpdate>, a: State, b: State)
    requires ListsChanges(us, a, b)
    ensures |us| == |DifferingIds(a, b)|
  {
    IdsCount(us);
    ChangesIds(us, a, b);
  }

  ghost predicate ResidualsValid(rs: seq<Residual>) {
    |rs| <= MAX_RESIDUALS && DistinctKeys(rs, SlotOf) && ResidualsOk(rs)
  }

  /** `between` succeeds exactly when the residuals are valid and at most 64 fields differ. */
  lemma BetweenSucceeds(sha: Sha256, src: Source, a: State, b: State, residuals: seq<Residual>)
    requires StateOk(a) && StateOk(b)
    ensures BetweenOf(sha, src, a, b, residuals).Ok?
       <==> ResidualsValid(residuals) && |DifferingIds(a, b)| <= MAX_CRITICAL_FIELDS
  {
    hide SortByKey, Validate, CriticalHashOf, DifferingIds, Unsorted;
    BetweenLists(sha, src, a, b, residuals);
    var d := DeltaOf(sha, src, a, b, residuals);
    ValidIff(d);
    ChangesOk(d.updates, a, b);
  }

  lemma ChangesOk(us: seq<SymbolUpdate>, a: State, b: State)
    requires ListsChanges(us, a, b) && StateOk(b)
    ensures UpdatesOk(us)
  {
    forall i | 0 <= i < |us| ensures UpdateOk(us[i]) { assert us[i] in us; }
  }

  // ----- apply ------------------------------------------------------------------------

  function ApplyUpdates(m: State, us: seq<SymbolUpdate>): (r: Result<State>)
    ensures StateOk(m) && r.Ok? ==> StateOk(r.value)
    ensures r.Err? ==> r.error == LimitExceeded
    decreases |us|
  {
    if us == [] then Ok(m)
    else match us[0]
      case Delete(id) =>
        ApplyUpdates(RemoveField(m, id), us[1..])
      case Set(id, value) =>
        var n :- SetField(m, id, value);
        ApplyUpdates(n, us[1..])
  }

  function Applied(sha: Sha256, d: SemanticDelta, m: State): Result<State>
    requires StateOk(m)
  {
    var _ :- Validate(d);
    if CriticalHashOf(sha, m) != d.baseHash then Err(BaseStateMismatch)
    else
      var n :- ApplyUpdates(m, d.updates);
      if CriticalHashOf(sha, n) != d.resultHash then Err(ResultStateMismatch) else Ok(n)
  }

  /** The base state is left as it was. */
  method Apply(sha: Sha256, d: SemanticDelta, base: CriticalState) returns (r: Result<CriticalState>)
    requires base.Valid()
    ensures r.Err? ==> Applied(sha, d, base.fields) == Err(r.error)
    ensures r.Ok? ==> fresh(r.value) && r.value.Valid() && Applied(sha, d, base.fields) == Ok(r.value.fields)
  {
    hide Validate, CriticalHashOf, SetField, RemoveField, StateOk;
    var _ :- Validate(d);
    var hash := base.CriticalHash(sha);
    if hash != d.baseHash { return Err(BaseStateMismatch); }
    var result := new CriticalState.Clone(base);
    for i := 0 to |d.updates|
      invariant fresh(result) && result.Valid()
      invariant ApplyUpdates(base.fields, d.updates) == ApplyUpdates(result.fields, d.updates[i..])
    {
      assert d.updates[i..][1..] == d.updates[i + 1..];
      match d.updates[i] {
        case Set(id, value) =>
          var done :- result.Set(id, value);
        case Delete(id) =>
          var removed := result.Remove(id);
      }
    }
    hash := result.CriticalHash(sha);
    if hash != d.resultHash { return Err(ResultStateMismatch); }
    return Ok(result);
  }

  /** The fields in `done` as in `b`, the others as in `a`. */
  function Mix(a: State, b: State, done: set<u16>): State {
    map id | id in a.Keys + b.Keys && id in (if id in done then b else a) :: if id in done then b[id] else a[id]
  }

  /** `us` moves fields not yet in `done` to their values in `b`. */
  ghost predicate Moves(us: seq<SymbolUpdate>, b: State, done: set<u16>) {
    DistinctKeys(us, UpdateId)
    && forall i :: 0 <= i < |us| ==> us[i].id !in done && us[i] == UpdateFor(b, us[i].id)
  }

  /** No insertion happens while the state is full. */
  ghost predicate Unblocked(a: State, b: State, done: set<u16>, us: seq<SymbolUpdate>)
    decreases |us|
  {
    us == []
    || (!(us[0].id in b && us[0].id !in a && |Mix(a, b, done)| >= MAX_CRITICAL_FIELDS)
        && Unblocked(a, b, done + {us[0].id}, us[1..]))
  }

  lemma MixStep(a: State, b: State, done: set<u16>, id: u16)
    requires id !in done && ValuesOk(b)
    ensures id !in b ==> Mix(a, b, done + {id}) == RemoveField(Mix(a, b, done), id)
    ensures id in b ==> Mix(a, b, done + {id}) == Mix(a, b, done)[id := b[id]]
    ensures id in Mix(a, b, done) <==> id in a
  {}

  lemma MovesTail(us: seq<SymbolUpdate>, b: State, done: set<u16>)
    requires us != [] && Moves(us, b, done)
    ensures Moves(us[1..], b, done + {us[0].id})
  {
    forall i | 0 <= i < |us[1..]| ensures us[1..][i].id != us[0].id {
      assert UpdateId(us[0]) != UpdateId(us[i + 1]);
    }
    forall i, j | 0 <= i < j < |us[1..]| ensures UpdateId(us[1..][i]) != UpdateId(us[1..][j]) {
      assert UpdateId(us[i + 1]) != UpdateId(us[j + 1]);
    }
  }

  lemma MoveOne(a: State, b: State, done: set<u16>, u: SymbolUpdate)
    requires StateOk(Mix(a, b, done)) && StateOk(b) && u == UpdateFor(b, u.id) && u.id !in done
    ensures ApplyUpdates(Mix(a, b, done), [u])
         == if u.id in b && u.id !in a && |Mix(a, b, done)| >= MAX_CRITICAL_FIELDS then Err(LimitExceeded)
            else Ok(Mix(a, b, done + {u.id}))
  {
    hide Mix;
    MixStep(a, b, done, u.id);
  }

  lemma ApplyFirst(m: State, us: seq<SymbolUpdate>)
    requires us != []
    ensures var first := ApplyUpdates(m, [us[0]]);
            ApplyUpdates(m, us) == if first.Ok? then ApplyUpdates(first.value, us[1..]) else first
  {
    assert [us[0]][1..] == [];
  }

  lemma ApplyNone(m: State)
    ensures ApplyUpdates(m, []) == Ok(m)
  {}

  lemma MovesHead(us: seq<SymbolUpdate>, b: State, done: set<u16>)
    requires us != [] && Moves(us, b, done)
    ensures us[0].id !in done && us[0] == UpdateFor(b, us[0].id)
  {}

  /** What any such run does: it reaches the mix, unless an insertion is blocked. */
  lemma {:induction false} ApplyMoves(a: State, b: State, done: set<u16>, us: seq<SymbolUpdate>)
    requires StateOk(Mix(a, b, done)) && StateOk(b) && Moves(us, b, done)
    ensures ApplyUpdates(Mix(a, b, done), us)
         == if Unblocked(a, b, done, us) then Ok(Mix(a, b, done + Ids(us))) else Err(LimitExceeded)
    decreases |us|
  {
    hide Mix, StateOk, Moves, UpdateFor, ApplyUpdates;
    if us == [] {
      assert done + Ids(us) == done;
      ApplyNone(Mix(a, b, done));
    } else {
      ApplyFirst(Mix(a, b, done), us);
      MovesHead(us, b, done);
      MoveOne(a, b, done, us[0]);
      MovesTail(us, b, done);
      var next := done + {us[0].id};
      if ApplyUpdates(Mix(a, b, done), [us[0]]).Ok? {
        ApplyMoves(a, b, next, us[1..]);
        assert next + Ids(us[1..]) == done + Ids(us);
      }
    }
  }

  // ----- the round trip -----------------------------------------------------------------

  lemma MixNone(a: State, b: State)
    ensures Mix(a, b, {}) == a
  {}

  lemma MixAll(a: State, b: State)
    ensures Mix(a, b, DifferingIds(a, b)) == b
  {
    hide Mix;
    var done := DifferingIds(a, b);
    var m := Mix(a, b, done);
    MixFields(a, b, done);
    assert m.Keys == b.Keys;
  }

  lemma MixFields(a: State, b: State, done: set<u16>)
    ensures forall id :: id in Mix(a, b, done) <==> id in (if id in done then b else a)
    ensures forall id :: id in Mix(a, b, done) ==> Mix(a, b, done)[id] == if id in done then b[id] else a[id]
  {}

  lemma MixSize(a: State, b: State, done: set<u16>)
    ensures |Mix(a, b, done)| <= |a.Keys + b.Keys|
    ensures forall id :: id in a.Keys + b.Keys && id !in Mix(a, b, done) ==> |Mix(a, b, done)| < |a.Keys + b.Keys|
  {
    var m := Mix(a, b, done);
    assert |m| == |m.Keys|;
    SubsetSize(m.Keys, a.Keys + b.Keys);
    forall id | id in a.Keys + b.Keys && id !in m ensures |m| < |a.Keys + b.Keys| {
      SubsetSize(m.Keys + {id}, a.Keys + b.Keys);
    }
  }

  lemma ChangesMove(us: seq<SymbolUpdate>, a: State, b: State)
    requires ListsChanges(us, a, b)
    ensures Moves(us, b, {})
  {
    hide UpdateFor, Differs;
    forall i | 0 <= i < |us| ensures us[i] == UpdateFor(b, us[i].id) { assert us[i] in us; }
  }

  /** A list of all changes, applied in its order, gives `b` unless some insertion is blocked. */
  lemma ApplyChanges(us: seq<SymbolUpdate>, a: State, b: State)
    requires ListsChanges(us, a, b) && StateOk(a) && StateOk(b)
    ensures ApplyUpdates(a, us) == if Unblocked(a, b, {}, us) then Ok(b) else Err(LimitExceeded)
  {
    hide Mix, Moves, ListsChanges, ApplyUpdates, Unblocked, StateOk;
    MixNone(a, b);
    MixAll(a, b);
    ChangesMove(us, a, b);
    ApplyMoves(a, b, {}, us);
    ChangesIds(us, a, b);
    assert {} + Ids(us) == DifferingIds(a, b);
  }

  lemma {:induction false} RoomForAll(a: State, b: State, done: set<u16>, us: seq<SymbolUpdate>)
    requires Moves(us, b, done) && |a.Keys + b.Keys| <= MAX_CRITICAL_FIELDS
    ensures Unblocked(a, b, done, us)
    decreases |us|
  {
    hide Mix, Moves, UpdateFor;
    if us != [] {
      MixSize(a, b, done);
      MixFields(a, b, done);
      MovesHead(us, b, done);
      MovesTail(us, b, done);
      RoomForAll(a, b, done + {us[0].id}, us[1..]);
    }
  }

  /** The delta with its updates stored in another order. */
  function Reordered(d: SemanticDelta, us: seq<SymbolUpdate>): SemanticDelta { d.(updates := us) }

  lemma ListsDistinct(us: seq<SymbolUpdate>, a: State, b: State)
    requires ListsChanges(us, a, b)
    ensures DistinctKeys(us, UpdateId)
  {}

  lemma AppliedReordered(sha: Sha256, src: Source, a: State, b: State, residuals: seq<Residual>, us: seq<SymbolUpdate>)
    requires StateOk(a) && StateOk(b) && BetweenOf(sha, src, a, b, residuals).Ok?
    requires multiset(us) == multiset(DeltaOf(sha, src, a, b, residuals).updates)
    ensures ListsChanges(us, a, b)
    ensures Applied(sha, Reordered(DeltaOf(sha, src, a, b, residuals), us), a)
         == if Unblocked(a, b, {}, us) then Ok(b) else Err(LimitExceeded)
  {
    hide ListsChanges, Unblocked, SortByKey, Validate, CriticalHashOf, StateOk, Unsorted, UpdatesOk, ApplyUpdates;
    hide DistinctKeys, StrictlySorted;
    BetweenLists(sha, src, a, b, residuals);
    var d := DeltaOf(sha, src, a, b, residuals);
    ListsPermuted(d.updates, us, a, b);
    ApplyChanges(us, a, b);
    ChangesCount(us, a, b);
    ChangesOk(us, a, b);
    ListsDistinct(us, a, b);
    ValidIff(d);
    ValidIff(Reordered(d, us));
  }

  /** Inserting before deleting can need room for both states at once. */
  ghost predicate EveryOrderApplies(sha: Sha256, src: Source, a: State, b: State, residuals: seq<Residual>)
    requires StateOk(a) && StateOk(b)
  {
    forall us :: multiset(us) == multiset(DeltaOf(sha, src, a, b, residuals).updates)
      ==> Applied(sha, Reordered(DeltaOf(sha, src, a, b, residuals), us), a) == Ok(b)
  }

  /** In whatever order the updates are stored, applying the delta to `a` gives
    * `b`: this holds exactly when the two states have at most 64 fields together. */
  lemma ApplyInAnyOrder(sha: Sha256, src: Source, a: State, b: State, residuals: seq<Residual>)
    requires StateOk(a) && StateOk(b) && BetweenOf(sha, src, a, b, residuals).Ok?
    ensures EveryOrderApplies(sha, src, a, b, residuals) <==> |a.Keys + b.Keys| <= MAX_CRITICAL_FIELDS
  {
    hide Applied, Unblocked, SortByKey, BetweenOf, CriticalHashOf, StateOk, DeltaOf, Moves, ListsChanges;
    if |a.Keys + b.Keys| <= MAX_CRITICAL_FIELDS {
      var updates := DeltaOf(sha, src, a, b, residuals).updates;
      forall us | multiset(us) == multiset(updates)
        ensures Applied(sha, Reordered(DeltaOf(sha, src, a, b, residuals), us), a) == Ok(b)
      {
        AppliedReordered(sha, src, a, b, residuals, us);
        ChangesMove(us, a, b);
        RoomForAll(a, b, {}, us);
      }
    } else {
      var updates := DeltaOf(sha, src, a, b, residuals).updates;
      BetweenLists(sha, src, a, b, residuals);
      var us := InsertsFirst(updates, a);
      AppliedReordered(sha, src, a, b, residuals, us);
      InsertsFirstBlocked(updates, a, b);
      ApplyChanges(us, a, b);
    }
  }

  predicate Inserts(u: SymbolUpdate, a: State) { u.Set? && u.id !in a }

  function Inserting(us: seq<SymbolUpdate>, a: State, wanted: bool): seq<SymbolUpdate> {
    if us == [] then []
    else (if Inserts(us[0], a) == wanted then [us[0]] else []) + Inserting(us[1..], a, wanted)
  }

  function InsertsFirst(us: seq<SymbolUpdate>, a: State): (r: seq<SymbolUpdate>)
    ensures multiset(r) == multiset(us)
  {
    InsertingPartition(us, a);
    Inserting(us, a, true) + Inserting(us, a, false)
  }

  lemma {:induction false} InsertingPartition(us: seq<SymbolUpdate>, a: State)
    ensures multiset(Inserting(us, a, true)) + multiset(Inserting(us, a, false)) == multiset(us)
  {
    hide Inserts;
    if us != [] {
      InsertingPartition(us[1..], a);
      assert us == [us[0]] + us[1..];
    }
  }

  lemma {:induction false} InsertingMember(us: seq<SymbolUpdate>, a: State, u: SymbolUpdate)
    ensures u in Inserting(us, a, true) <==> u in us && Inserts(u, a)
  {
    hide Inserts;
    if us != [] {
      InsertingMember(us[1..], a, u);
      assert us == [us[0]] + us[1..];
    }
  }

  lemma {:induction false} ApplyConcat(m: State, us: seq<SymbolUpdate>, vs: seq<SymbolUpdate>)
    ensures var first := ApplyUpdates(m, us);
            ApplyUpdates(m, us + vs) == if first.Ok? then ApplyUpdates(first.value, vs) else first
    decreases |us|
  {
    hide ApplyUpdates;
    if us == [] {
      assert us + vs == vs;
      ApplyNone(m);
    } else {
      ApplyFirst(m, us);
      ApplyFirst(m, us + vs);
      assert (us + vs)[1..] == us[1..] + vs;
      var first := ApplyUpdates(m, [us[0]]);
      if first.Ok? { ApplyConcat(first.value, us[1..], vs); }
    }
  }

  lemma DistinctPrefix<T>(s: seq<T>, t: seq<T>, key: T -> int)
    requires DistinctKeys(s + t, key)
    ensures DistinctKeys(s, key)
  {
    assert forall i :: 0 <= i < |s| ==> (s + t)[i] == s[i];
  }

  /** After the insertions alone the state holds the fields of both. */
  lemma InsertsFirstBlocked(us: seq<SymbolUpdate>, a: State, b: State)
    requires ListsChanges(us, a, b) && StateOk(a) && StateOk(b) && |a.Keys + b.Keys| > MAX_CRITICAL_FIELDS
    ensures ApplyUpdates(a, InsertsFirst(us, a)) == Err(LimitExceeded)
  {
    var ins, others := Inserting(us, a, true), Inserting(us, a, false);
    assert InsertsFirst(us, a) == ins + others;
    hide Mix, ApplyUpdates, Unblocked, Inserting, InsertsFirst, UpdateFor;
    ApplyConcat(a, ins, others);
    ListsPermuted(us, ins + others, a, b);
    DistinctPrefix(ins, others, UpdateId);
    forall i | 0 <= i < |ins| ensures ins[i] == UpdateFor(b, ins[i].id) {
      assert ins[i] in ins + others;
    }
    MixNone(a, b);
    ApplyMoves(a, b, {}, ins);
    forall id | id in a.Keys + b.Keys ensures id in Mix(a, b, {} + Ids(ins)) {
      InsertedOrOld(us, a, b, id);
      MixFields(a, b, {} + Ids(ins));
    }
    SubsetSize(a.Keys + b.Keys, Mix(a, b, {} + Ids(ins)).Keys);
    assert |Mix(a, b, {} + Ids(ins))| == |Mix(a, b, {} + Ids(ins)).Keys|;
  }

  lemma InsertedOrOld(us: seq<SymbolUpdate>, a: State, b: State, id: u16)
    requires ListsChanges(us, a, b) && id in a.Keys + b.Keys
    ensures id in if id in {} + Ids(Inserting(us, a, true)) then b else a
  {
    var ins := Inserting(us, a, true);
    IdsMember(ins, id);
    if id in Ids(ins) {
      var i :| 0 <= i < |ins| && ins[i].id == id;
      InsertingMember(us, a, ins[i]);
    } else if id !in a {
      assert UpdateFor(b, id) in us;
      InsertingMember(us, a, UpdateFor(b, id));
    }
  }

  // ----- the order `between` itself uses ---------------------------------------------------

  function Below(m: State, id: u16): set<u16> { set k | k in m && k < id }

  function Above(m: State, id: u16): set<u16> { set k | k in m && k > id }

  /** There is room for field `id` once all smaller ids have been updated. */
  predicate Fits(a: State, b: State, id: u16) {
    |Below(b, id)| + |Above(a, id)| < MAX_CRITICAL_FIELDS
  }

  lemma MixKeysAt(a: State, b: State, done: set<u16>, id: u16)
    requires id !in a
    requires forall k :: k in done <==> k in DifferingIds(a, b) && k < id
    ensures Mix(a, b, done).Keys == Below(b, id) + Above(a, id) && Below(b, id) !! Above(a, id)
  {
    hide Mix;
    MixFields(a, b, done);
  }

  lemma MixAt(a: State, b: State, done: set<u16>, id: u16)
    requires id !in a
    requires forall k :: k in done <==> k in DifferingIds(a, b) && k < id
    ensures |Mix(a, b, done)| == |Below(b, id)| + |Above(a, id)|
    ensures |Mix(a, b, done)| < MAX_CRITICAL_FIELDS <==> Fits(a, b, id)
  {
    hide Mix, Below, Above;
    MixKeysAt(a, b, done, id);
    assert |Mix(a, b, done)| == |Mix(a, b, done).Keys|;
  }

  lemma {:induction false} SortedUnblocked(a: State, b: State, done: set<u16>, us: seq<SymbolUpdate>)
    requires StrictlySorted(us, UpdateId) && done + Ids(us) == DifferingIds(a, b)
    requires forall k, i :: k in done && 0 <= i < |us| ==> k < us[i].id
    ensures Unblocked(a, b, done, us) <==> forall i :: 0 <= i < |us| && us[i].id in b && us[i].id !in a ==>
              Fits(a, b, us[i].id)
    decreases |us|
  {
    hide Mix, DifferingIds, Fits;
    if us != [] {
      var id := us[0].id;
      forall i | 0 <= i < |us[1..]| ensures id < us[1..][i].id {
        assert UpdateId(us[0]) < UpdateId(us[i + 1]);
      }
      forall i, j | 0 <= i < j < |us[1..]| ensures UpdateId(us[1..][i]) < UpdateId(us[1..][j]) {
        assert UpdateId(us[i + 1]) < UpdateId(us[j + 1]);
      }
      DoneBelow(a, b, done, us);
      if id !in a { MixAt(a, b, done, id); }
      assert (done + {id}) + Ids(us[1..]) == done + Ids(us);
      SortedUnblocked(a, b, done + {id}, us[1..]);
      assert us == [us[0]] + us[1..];
    }
  }

  lemma DoneBelow(a: State, b: State, done: set<u16>, us: seq<SymbolUpdate>)
    requires us != [] && StrictlySorted(us, UpdateId) && done + Ids(us) == DifferingIds(a, b)
    requires forall k, i :: k in done && 0 <= i < |us| ==> k < us[i].id
    ensures forall k :: k in done <==> k in DifferingIds(a, b) && k < us[0].id
  {
    hide DifferingIds;
    forall k | k in Ids(us) ensures k >= us[0].id {
      IdsMember(us, k);
      var i :| 0 <= i < |us| && us[i].id == k;
      if i > 0 { assert UpdateId(us[0]) < UpdateId(us[i]); }
    }
  }

  /** Applying the delta as `between` returns it gives `b` exactly when every
    * field that `b` adds fits beside the smaller fields of `b` and the larger
    * fields of `a`. */
  lemma ApplyAsReturned(sha: Sha256, src: Source, a: State, b: State, residuals: seq<Residual>)
    requires StateOk(a) && StateOk(b) && BetweenOf(sha, src, a, b, residuals).Ok?
    ensures var applied := Applied(sha, BetweenOf(sha, src, a, b, residuals).value, a);
            && (applied.Ok? <==> forall id :: id in b && id !in a ==> Fits(a, b, id))
            && applied == if applied.Ok? then Ok(b) else Err(LimitExceeded)
  {
    hide Applied, Unblocked, SortByKey, Validate, CriticalHashOf, StateOk, Fits, ListsChanges, StrictlySorted, Unsorted;
    var d := DeltaOf(sha, src, a, b, residuals);
    BetweenLists(sha, src, a, b, residuals);
    AppliedReordered(sha, src, a, b, residuals, d.updates);
    assert Reordered(d, d.updates) == d;
    ChangesIds(d.updates, a, b);
    assert {} + Ids(d.updates) == DifferingIds(a, b);
    SortedUnblocked(a, b, {}, d.updates);
    AddedListed(d.updates, a, b);
  }

  lemma AddedListed(us: seq<SymbolUpdate>, a: State, b: State)
    requires ListsChanges(us, a, b)
    ensures (forall i :: 0 <= i < |us| && us[i].id in b && us[i].id !in a ==> Fits(a, b, us[i].id))
       <==> (forall id :: id in b && id !in a ==> Fits(a, b, id))
  {
    hide Fits, DistinctKeys;
    if forall i :: 0 <= i < |us| && us[i].id in b && us[i].id !in a ==> Fits(a, b, us[i].id) {
      forall id | id in b && id !in a ensures Fits(a, b, id) {
        assert UpdateFor(b, id) in us;
        var i :| 0 <= i < |us| && us[i] == UpdateFor(b, id);
        assert us[i].id == id;
      }
    }
  }

  // ----- two full states whose delta does not apply --------------------------------------------

  /** The flag `true` in every field from `lo` on, below `hi`. */
  function FlagsFrom(lo: nat, hi: u16): (m: State)
    ensures forall id :: id in m <==> lo <= id < hi
    ensures forall id :: id in m ==> m[id] == BoolValue(true)
    ensures lo <= hi ==> |m| == hi - lo
    decreases hi - lo
  {
    if lo >= hi then map[]
    else
      FlagsFrom(lo + 1, hi)[lo := BoolValue(true)]
  }

  lemma FullStates()
    ensures var a, b := FlagsFrom(1, 65), FlagsFrom(0, 64);
            && StateOk(a) && StateOk(b) && |DifferingIds(a, b)| == 2
            && 0 in b && 0 !in a && !Fits(a, b, 0)
  {
    hide FlagsFrom;
    var a, b := FlagsFrom(1, 65), FlagsFrom(0, 64);
    assert DifferingIds(a, b) == {0, 64};
    assert Above(a, 0) == a.Keys && |a.Keys| == |a|;
  }

  /** Fields 1 to 64 against fields 0 to 63: two updates, and the insertion comes first. */
  lemma FullStatesDoNotApply(sha: Sha256, src: Source)
    ensures var a, b := FlagsFrom(1, 65), FlagsFrom(0, 64);
            && StateOk(a) && StateOk(b) && BetweenOf(sha, src, a, b, []).Ok?
            && Applied(sha, BetweenOf(sha, src, a, b, []).value, a) == Err(LimitExceeded)
  {
    hide Applied, BetweenOf, FlagsFrom, StateOk, Fits, DifferingIds;
    FullStates();
    var a, b := FlagsFrom(1, 65), FlagsFrom(0, 64);
    BetweenSucceeds(sha, src, a, b, []);
    ApplyAsReturned(sha, src, a, b, []);
  }

  // ----- what the hashes guard ---------------------------------------------------------------

  /** The delta names its two states, its source and its residuals. */
  lemma BetweenNames(sha: Sha256, src: Source, a: State, b: State, residuals: seq<Residual>)
    requires StateOk(a) && StateOk(b) && BetweenOf(sha, src, a, b, residuals).Ok?
    ensures var d := BetweenOf(sha, src, a, b, residuals).value;
            && d.sourceId == src.sourceId && d.epoch == src.epoch && d.messageId == src.messageId
            && d.baseHash == CriticalHashOf(sha, a) && d.resultHash == CriticalHashOf(sha, b)
            && d.residuals == residuals
  {
    hide SortByKey, Validate, CriticalHashOf, StateOk, Unsorted;
  }

  /** What applying a valid delta answers, in its order. */
  lemma AppliedAnswers(sha: Sha256, d: SemanticDelta, m: State)
    requires StateOk(m) && DeltaCodec.Valid(d)
    ensures Applied(sha, d, m) == Err(BaseStateMismatch) <==> CriticalHashOf(sha, m) != d.baseHash
    ensures Applied(sha, d, m) == Err(ResultStateMismatch)
       <==> CriticalHashOf(sha, m) == d.baseHash && ApplyUpdates(m, d.updates).Ok?
            && CriticalHashOf(sha, ApplyUpdates(m, d.updates).value) != d.resultHash
  {
    hide CriticalHashOf, ApplyUpdates, StateOk;
    assert Validate(d).Ok? by { ValidIsValidated(d); }
    hide Validate;
  }

  lemma ValidIsValidated(d: SemanticDelta)
    requires DeltaCodec.Valid(d)
    ensures Validate(d).Ok?
  {
    ValidIff(d);
  }

  /** On any state but its base the delta is refused under some digest: the base
    * hash depends on every field. */
  lemma WrongBaseRefused(src: Source, a: State, b: State, c: State, residuals: seq<Residual>) returns (sha: Sha256)
    requires StateOk(a) && StateOk(b) && StateOk(c) && c != a
    requires ResidualsValid(residuals) && |DifferingIds(a, b)| <= MAX_CRITICAL_FIELDS
    ensures BetweenOf(sha, src, a, b, residuals).Ok?
    ensures Applied(sha, BetweenOf(sha, src, a, b, residuals).value, c) == Err(BaseStateMismatch)
  {
    hide CriticalHashOf, StateOk, DifferingIds, ResidualsValid, SortByKey, Unsorted, Validate, ApplyUpdates, DeltaOf;
    sha := TellingDigest(c);
    BetweenSucceeds(sha, src, a, b, residuals);
    BetweenNames(sha, src, a, b, residuals);
    var d := BetweenOf(sha, src, a, b, residuals).value;
    BetweenIsValid(sha, src, a, b, residuals);
    AppliedAnswers(sha, d, c);
  }

  lemma BetweenIsValid(sha: Sha256, src: Source, a: State, b: State, residuals: seq<Residual>)
    requires StateOk(a) && StateOk(b) && BetweenOf(sha, src, a, b, residuals).Ok?
    ensures DeltaCodec.Valid(BetweenOf(sha, src, a, b, residuals).value)
  {
    hide SortByKey, CriticalHashOf, StateOk, Unsorted;
    ValidIff(DeltaOf(sha, src, a, b, residuals));
    hide Validate;
  }

  /** With other updates that lead anywhere but to the announced state it is
    * refused under some digest: the result hash depends on every field. */
  lemma WrongResultRefused(src: Source, a: State, b: State, us: seq<SymbolUpdate>, residuals: seq<Residual>)
    returns (sha: Sha256)
    requires StateOk(a) && StateOk(b) && ResidualsValid(residuals) && |DifferingIds(a, b)| <= MAX_CRITICAL_FIELDS
    requires ApplyUpdates(a, us).Ok? && ApplyUpdates(a, us).value != b
    ensures BetweenOf(sha, src, a, b, residuals).Ok?
    ensures var d := BetweenOf(sha, src, a, b, residuals).value.(updates := us);
            DeltaCodec.Valid(d) ==> Applied(sha, d, a) == Err(ResultStateMismatch)
  {
    hide CriticalHashOf, StateOk, DifferingIds, ResidualsValid, SortByKey, Unsorted, Validate, ApplyUpdates, DeltaOf;
    hide DeltaCodec.Valid;
    var n := ApplyUpdates(a, us).value;
    sha := TellingDigest(n);
    BetweenSucceeds(sha, src, a, b, residuals);
    BetweenNames(sha, src, a, b, residuals);
    var d := BetweenOf(sha, src, a, b, residuals).value.(updates := us);
    if DeltaCodec.Valid(d) { AppliedAnswers(sha, d, a); }
  }
}
