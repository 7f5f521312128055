/** The in-memory task store (service/InMemoryTaskManager.java): one id
    counter shared by all kinds, three maps, the epic-subtask link, the epic
    status rule and the view history. Every public method is a function from
    the old store to the new one. */
module TaskStore {
  import opened Wrappers
  import opened JavaText
  import opened Model
  import History

  datatype Store = Store(
    nextId: int,
    tasks: map<int, Task>,
    epics: map<int, Epic>,
    subtasks: map<int, Subtask>,
    history: History.History)

  /** A new manager: the counter starts at 1, everything else is empty. */
  const EmptyStore: Store := Store(1, map[], map[], map[], History.EmptyHistory)

  /** The exceptions `addSubtask` can end with. */
  datatype StoreError =
    | SubtaskIsOwnEpic      // the subtask names itself as its epic
    | EpicContainsItself    // Epic.addSubtaskId refused the epic's own id

  /** The store after an add, and the id written back to the caller's object. */
  datatype Added = Added(store: Store, id: int)

  /** The store after `addSubtask`, which may throw after changing it. */
  datatype Attempt = Attempt(store: Store, result: Result<int, StoreError>)

  // ---------------------------------------------------------------------------
  // Id allocation
  // ---------------------------------------------------------------------------

  /** The id an add gives its entity: a positive id supplied by the caller is
      kept, anything else is replaced by the counter's value. */
  function AssignedId(next: int, supplied: int): int {
    if supplied > 0 then supplied else next
  }

  datatype Allocation = Allocation(id: int, next: int)

  /** The counter and the supplied id are far enough below 2147483647 that
      `nextId++` and `id + 1` do not wrap. */
  predicate CounterSafe(next: int, supplied: int) {
    Int32Min <= next < Int32Max && supplied < Int32Max
  }

  /** The id step shared by the three adds: `generateId()` when no positive id
      was supplied, then the counter is moved past a supplied id it has not
      reached. Both increments are on a Java `int` and wrap. Away from the
      wrap the counter ends above the id handed out; handing out 2147483647
      sends it negative, and generating 2147483647 sends it back to the
      supplied id plus one. */
  function AllocateId(next: int, supplied: int): (a: Allocation)
    ensures a.id == AssignedId(next, supplied)
    ensures InInt32(next) ==> InInt32(a.next)
    ensures CounterSafe(next, supplied) ==>
      && a.next > a.id && a.next >= next
      && a.next <= (if supplied > next then supplied else next) + 1
      && (supplied > 0 ==> a.next == (if supplied >= next then supplied + 1 else next))
      && (supplied <= 0 ==> a.next == (if supplied > next then supplied + 1 else next + 1))
    ensures InInt32(next) && supplied == Int32Max ==> a.next == Int32Min
    ensures next == Int32Max && Int32Min <= supplied <= 0 ==> a.id == Int32Max && a.next == supplied + 1
  {
    var id := if supplied > 0 then supplied else next;
    var afterGenerate := if supplied > 0 then next else Wrap32(next + 1);
    Allocation(id, if supplied >= afterGenerate then Wrap32(supplied + 1) else afterGenerate)
  }

  /** The largest of the starting counter and the supplied ids. */
  function Peak(next: int, supplied: seq<int>): (r: int)
    ensures r >= next && forall i :: 0 <= i < |supplied| ==> supplied[i] <= r
    decreases |supplied|
  {
    if supplied == [] then next
    else
      var before := Peak(next, supplied[..|supplied| - 1]);
      var last := supplied[|supplied| - 1];
      if last > before then last else before
  }

  /** A series of adds that never takes the counter to 2147483647: each add
      raises it by at most one past the largest id seen. */
  predicate Unwrapped(next: int, supplied: seq<int>) {
    Int32Min <= next && Peak(next, supplied) + |supplied| < Int32Max
  }

  /** The ids handed out by a series of adds with the given supplied ids,
      and the counter afterwards. */
  function Allocations(next: int, supplied: seq<int>): (r: (seq<int>, int))
    ensures |r.0| == |supplied|
    ensures forall i :: 0 <= i < |supplied| && supplied[i] > 0 ==> r.0[i] == supplied[i]
    ensures Unwrapped(next, supplied) ==>
      && next <= r.1 <= Peak(next, supplied) + |supplied|
      && (forall i :: 0 <= i < |supplied| ==> r.0[i] < r.1)
      && (forall i, j :: 0 <= i < j < |supplied| && supplied[j] <= 0 ==> r.0[i] < r.0[j])
    decreases |supplied|
  {
    if supplied == [] then ([], next)
    else
      var before := Allocations(next, supplied[..|supplied| - 1]);
      var a := AllocateId(before.1, supplied[|supplied| - 1]);
      (before.0 + [a.id], a.next)
  }

  /** Below the wrap, a generated id never equals any id handed out before
      it, supplied or generated. */
  lemma GeneratedIdsAreNew(next: int, supplied: seq<int>, i: int, j: int)
    requires Unwrapped(next, supplied)
    requires 0 <= i < j < |supplied| && supplied[j] <= 0
    ensures Allocations(next, supplied).0[i] != Allocations(next, supplied).0[j]
  {
  }

  /** Past the wrap they can: after a caller supplies 2147483647 the counter
      is negative, the next generated id is -2147483648, and the one after
      that is 1 again. */
  lemma WrappedCounterRepeatsIds()
    ensures Allocations(1, [0, Int32Max, 0, 0]) == ([1, Int32Max, Int32Min, 1], 2)
    ensures !Unwrapped(1, [0, Int32Max, 0, 0])
  {
    var s1, s2, s3, s4 := [0], [0, Int32Max], [0, Int32Max, 0], [0, Int32Max, 0, 0];
    assert s1[..0] == [] && s2[..1] == s1 && s3[..2] == s2 && s4[..3] == s3;
    assert AllocateId(1, 0) == Allocation(1, 2);
    assert Allocations(1, s1).0 == [1] && Allocations(1, s1).1 == 2;
    assert AllocateId(2, Int32Max) == Allocation(Int32Max, Int32Min);
    assert Allocations(1, s2).0 == [1, Int32Max] && Allocations(1, s2).1 == Int32Min;
    assert AllocateId(Int32Min, 0) == Allocation(Int32Min, 1);
    assert Allocations(1, s3).0 == [1, Int32Max, Int32Min] && Allocations(1, s3).1 == 1;
    assert Allocations(1, s4).0 == [1, Int32Max, Int32Min, 1] && Allocations(1, s4).1 == 2;
    assert s4[1] <= Peak(1, s4);
  }

  // ---------------------------------------------------------------------------
  // The epic status rule (updateEpicStatus)
  // ---------------------------------------------------------------------------

  /** Every id on the list names a stored subtask. */
  predicate ListResolves(ids: seq<int>, subtasks: map<int, Subtask>) {
    forall i :: 0 <= i < |ids| ==> ids[i] in subtasks
  }

  /** The statuses of the listed subtasks, in list order. */
  function StatusesOf(ids: seq<int>, subtasks: map<int, Subtask>): (r: seq<Status>)
    requires ListResolves(ids, subtasks)
    ensures |r| == |ids|
    ensures forall i :: 0 <= i < |ids| ==> r[i] == subtasks[ids[i]].base.status
  {
    seq(|ids|, i requires 0 <= i < |ids| => subtasks[ids[i]].base.status)
  }

  /** NEW when there are no subtasks or all are NEW, DONE when all are DONE,
      IN_PROGRESS for any other mix. */
  function EpicStatusRule(statuses: seq<Status>): (r: Status)
    ensures r == Done <==> statuses != [] && forall i :: 0 <= i < |statuses| ==> statuses[i] == Done
    ensures r == New <==> forall i :: 0 <= i < |statuses| ==> statuses[i] == New
    ensures r == InProgress <==>
      && (exists i :: 0 <= i < |statuses| && statuses[i] != Done)
      && (exists i :: 0 <= i < |statuses| && statuses[i] != New)
  {
    if statuses == [] then New
    else if forall i :: 0 <= i < |statuses| ==> statuses[i] == Done then
      assert statuses[0] != New;
      Done
    else if forall i :: 0 <= i < |statuses| ==> statuses[i] == New then New
    else InProgress
  }

  /** The cases the source's tests check. */
  lemma EpicStatusExamples()
    ensures EpicStatusRule([]) == New
    ensures EpicStatusRule([New, New]) == New
    ensures EpicStatusRule([Done, Done]) == Done
    ensures EpicStatusRule([Done, New]) == InProgress
    ensures EpicStatusRule([InProgress, InProgress]) == InProgress
    ensures EpicStatusRule([New, InProgress, Done]) == InProgress
  {
    assert [Done, New][1] != Done && [Done, New][0] != New;
    assert [InProgress, InProgress][0] != Done;
    assert [New, InProgress, Done][1] != New;
  }

  /** The source's loop: two flags cleared by any subtask that is not NEW,
      respectively not DONE; DONE wins over NEW. */
  method ComputeEpicStatus(ids: seq<int>, subtasks: map<int, Subtask>) returns (status: Status)
    requires ListResolves(ids, subtasks)
    ensures status == EpicStatusRule(StatusesOf(ids, subtasks))
  {
    if |ids| == 0 {
      return New;
    }
    var allNew := true;
    var allDone := true;
    for i := 0 to |ids|
      invariant allNew <==> forall k :: 0 <= k < i ==> subtasks[ids[k]].base.status == New
      invariant allDone <==> forall k :: 0 <= k < i ==> subtasks[ids[k]].base.status == Done
    {
      var st := subtasks[ids[i]].base.status;
      if st != New {
        allNew := false;
      }
      if st != Done {
        allDone := false;
      }
    }
    if allDone {
      status := Done;
    } else if allNew {
      status := New;
    } else {
      status := InProgress;
    }
  }

  /** `updateEpicStatus(epic)`: only the status changes. */
  function RefreshStatus(e: Epic, subtasks: map<int, Subtask>): (r: Epic)
    requires ListResolves(e.subtaskIds, subtasks)
    ensures r.base == e.base.(status := EpicStatusRule(StatusesOf(e.subtaskIds, subtasks)))
    ensures r.subtaskIds == e.subtaskIds && r.endTime == e.endTime
  {
    e.(base := e.base.(status := EpicStatusRule(StatusesOf(e.subtaskIds, subtasks))))
  }

  // ---------------------------------------------------------------------------
  // Store invariants
  // ---------------------------------------------------------------------------

  /** The key invariant: every id on any epic's list is a stored subtask, so
      the status rule never meets a missing subtask. */
  predicate LinksResolve(s: Store) {
    forall k :: k in s.epics ==> ListResolves(s.epics[k].subtaskIds, s.subtasks)
  }

  predicate NoDuplicates(ids: seq<int>) {
    forall i, j :: 0 <= i < j < |ids| ==> ids[i] != ids[j]
  }

  /** Every listed subtask exists and names the epic that lists it (so no id
      is on two lists), and no list repeats an id. */
  predicate Linked(s: Store) {
    && LinksResolve(s)
    && (forall k :: k in s.epics ==> NoDuplicates(s.epics[k].subtaskIds))
    && (forall k, i :: k in s.epics && 0 <= i < |s.epics[k].subtaskIds| ==>
          s.subtasks[s.epics[k].subtaskIds[i]].epicId == k)
  }

  /** Each map is keyed by its values' ids. */
  predicate KeysMatchIds(s: Store) {
    && (forall k :: k in s.tasks ==> s.tasks[k].id == k)
    && (forall k :: k in s.epics ==> s.epics[k].base.id == k)
    && (forall k :: k in s.subtasks ==> s.subtasks[k].base.id == k)
  }

  /** No stored subtask names itself as its epic. */
  predicate NoSelfOwned(s: Store) {
    forall k :: k in s.subtasks ==> s.subtasks[k].epicId != k
  }

  /** The counter is a Java `int` above every stored id. */
  predicate CounterAhead(s: Store) {
    && InInt32(s.nextId)
    && (forall k :: k in s.tasks ==> k < s.nextId)
    && (forall k :: k in s.epics ==> k < s.nextId)
    && (forall k :: k in s.subtasks ==> k < s.nextId)
  }

  /** Everything the store keeps true when used as its interface intends. */
  predicate Valid(s: Store) {
    KeysMatchIds(s) && Linked(s) && NoSelfOwned(s) && CounterAhead(s)
  }

  lemma EmptyStoreIsValid()
    ensures Valid(EmptyStore) && EmptyStore.nextId == 1
  {
  }

  /** With the counter ahead, a generated id is new to all three maps. */
  lemma GeneratedIdIsFresh(s: Store, supplied: int)
    requires CounterAhead(s) && supplied <= 0
    ensures AssignedId(s.nextId, supplied) !in s.tasks
    ensures AssignedId(s.nextId, supplied) !in s.epics
    ensures AssignedId(s.nextId, supplied) !in s.subtasks
  {
  }

  // ---------------------------------------------------------------------------
  // Adding
  // ---------------------------------------------------------------------------

  /** `addTask`: the stored value is a copy of the caller's task carrying the
      assigned id, which is also the only change made to the caller's task.
      The counter takes the allocation step's value. */
  function AddTask(s: Store, t: Task): (r: Added)
    ensures r.id == AssignedId(s.nextId, t.id) && r.store.nextId == AllocateId(s.nextId, t.id).next
    ensures CounterSafe(s.nextId, t.id) ==> r.store.nextId > r.id && r.store.nextId >= s.nextId
    ensures r.store.tasks == s.tasks[r.id := t.(id := r.id)]
    ensures r.store.epics == s.epics && r.store.subtasks == s.subtasks
    ensures r.store.history == s.history
  {
    var a := AllocateId(s.nextId, t.id);
    Added(s.(nextId := a.next, tasks := s.tasks[a.id := SetId(CopyTask(t), a.id)]), a.id)
  }

  /** `addEpic`: as `addTask`; the copy keeps the caller's subtask list. */
  function AddEpic(s: Store, e: Epic): (r: Added)
    ensures r.id == AssignedId(s.nextId, e.base.id) && r.store.nextId == AllocateId(s.nextId, e.base.id).next
    ensures CounterSafe(s.nextId, e.base.id) ==> r.store.nextId > r.id && r.store.nextId >= s.nextId
    ensures r.store.epics == s.epics[r.id := e.(base := e.base.(id := r.id))]
    ensures r.store.tasks == s.tasks && r.store.subtasks == s.subtasks
    ensures r.store.history == s.history
  {
    var a := AllocateId(s.nextId, e.base.id);
    var copy := CopyEpic(e);
    Added(s.(nextId := a.next, epics := s.epics[a.id := copy.(base := SetId(copy.base, a.id))]), a.id)
  }

  /** Every listed id is a stored subtask or `id`, the one just put. */
  predicate ResolvesAfterPut(ids: seq<int>, subtasks: map<int, Subtask>, id: int) {
    forall i :: 0 <= i < |ids| ==> ids[i] in subtasks || ids[i] == id
  }

  /** What `addSubtask` needs of the store so that `updateEpicStatus`, run
      after the subtask is put under `id` and `id` is appended to the list of
      epic `epicId`, finds every listed subtask. It runs only when the epic
      exists and accepts the id. */
  predicate CanLink(s: Store, epicId: int, id: int) {
    epicId in s.epics && s.epics[epicId].base.id != id ==>
      ResolvesAfterPut(s.epics[epicId].subtaskIds, s.subtasks, id)
  }

  /** A list resolving before the put still resolves after it, with the new
      id appended. */
  lemma ListResolvesAfterPut(ids: seq<int>, subtasks: map<int, Subtask>, id: int, st: Subtask)
    requires ResolvesAfterPut(ids, subtasks, id)
    ensures ListResolves(ids + [id], subtasks[id := st])
  {
  }

  /** What `addSubtask` does once its self-reference check has passed, for
      the subtask stored under `id`: the copy is put first; then, if its
      epic exists, `Epic.addSubtaskId` either refuses the epic's own id
      (the put stays, no epic changes) or appends the id, and that epic's
      status is recomputed over the longer list. No other epic changes. */
  predicate PutAndLinked(s: Store, st: Subtask, id: int, r: Attempt) {
    && r.store.tasks == s.tasks && r.store.history == s.history
    && r.store.subtasks == s.subtasks[id := st.(base := st.base.(id := id))]
    && (r.result == Err(StoreError.EpicContainsItself) <==> st.epicId in s.epics && s.epics[st.epicId].base.id == id)
    && (r.result.Ok? || r.result == Err(StoreError.EpicContainsItself))
    && (r.result.Err? ==> r.store.epics == s.epics)
    && (r.result.Ok? ==>
          && r.result.value == id
          && r.store.epics.Keys == s.epics.Keys
          && (forall k :: k in s.epics && k != st.epicId ==> r.store.epics[k] == s.epics[k])
          && (st.epicId in s.epics ==>
                var old_ := s.epics[st.epicId];
                var new_ := r.store.epics[st.epicId];
                && new_.subtaskIds == old_.subtaskIds + [id]
                && ListResolves(new_.subtaskIds, r.store.subtasks)
                && new_.base == old_.base.(status := EpicStatusRule(StatusesOf(new_.subtaskIds, r.store.subtasks)))
                && new_.endTime == old_.endTime))
  }

  /** The second half of `addSubtask`, after its self-reference check: put
      the copy, then append its id to its epic's list and recompute that
      epic's status, when the epic exists. */
  function LinkSubtask(s: Store, copy: Subtask): (r: Attempt)
    requires CanLink(s, copy.epicId, copy.base.id)
    ensures PutAndLinked(s, copy, copy.base.id, r)
    ensures r.store.nextId == s.nextId
  {
    var id := copy.base.id;
    var s1 := s.(subtasks := s.subtasks[id := copy]);
    if copy.epicId !in s.epics then
      Attempt(s1, Ok(id))
    else
      match AddSubtaskId(s.epics[copy.epicId], id)
      case Err(_) => Attempt(s1, Err(StoreError.EpicContainsItself))
      case Ok(e) =>
        ListResolvesAfterPut(s.epics[copy.epicId].subtaskIds, s.subtasks, id, copy);
        Attempt(s1.(epics := s.epics[copy.epicId := RefreshStatus(e, s1.subtasks)]), Ok(id))
  }

  /** `addSubtask`, with the self-reference check made on the id the subtask
      is given (corrected; see the as-written version below). A subtask whose
      assigned id equals its epic id is refused with nothing but the counter
      changed. Otherwise it is put and linked as `PutAndLinked` says. The
      store must let the status recomputation find every listed subtask. */
  function AddSubtask(s: Store, st: Subtask): (r: Attempt)
    requires st.epicId != AssignedId(s.nextId, st.base.id) ==>
      CanLink(s, st.epicId, AssignedId(s.nextId, st.base.id))
    ensures var id := AssignedId(s.nextId, st.base.id);
      && r.store.nextId == AllocateId(s.nextId, st.base.id).next
      && (CounterSafe(s.nextId, st.base.id) ==> r.store.nextId > id && r.store.nextId >= s.nextId)
      && (r.result == Err(SubtaskIsOwnEpic) <==> st.epicId == id)
      && (st.epicId == id ==> r.store == s.(nextId := r.store.nextId))
      && (st.epicId != id ==> PutAndLinked(s, st, id, r))
      && (KeysMatchIds(s) ==> (r.result.Ok? <==> st.epicId != id))
  {
    var a := AllocateId(s.nextId, st.base.id);
    var s1 := s.(nextId := a.next);
    if st.epicId == a.id then
      Attempt(s1, Err(SubtaskIsOwnEpic))
    else
      var copy := CopySubtask(st);
      LinkSubtask(s1, copy.(base := SetId(copy.base, a.id)))
  }

  // ---------------------------------------------------------------------------
  // Viewing
  // ---------------------------------------------------------------------------

  /** `getTaskById`: a present task is recorded in the history; an absent id
      changes nothing. */
  function GetTaskById(s: Store, id: int): (r: Store)
    ensures id in s.tasks ==> r == s.(history := History.Add(s.history, TaskItem(s.tasks[id])))
    ensures id !in s.tasks ==> r == s
  {
    if id in s.tasks then s.(history := History.Add(s.history, TaskItem(s.tasks[id]))) else s
  }

  /** `getEpicById`. */
  function GetEpicById(s: Store, id: int): (r: Store)
    ensures id in s.epics ==> r == s.(history := History.Add(s.history, EpicItem(s.epics[id])))
    ensures id !in s.epics ==> r == s
  {
    if id in s.epics then s.(history := History.Add(s.history, EpicItem(s.epics[id]))) else s
  }

  /** `getSubtaskById`. */
  function GetSubtaskById(s: Store, id: int): (r: Store)
    ensures id in s.subtasks ==> r == s.(history := History.Add(s.history, SubtaskItem(s.subtasks[id])))
    ensures id !in s.subtasks ==> r == s
  {
    if id in s.subtasks then s.(history := History.Add(s.history, SubtaskItem(s.subtasks[id]))) else s
  }

  /** Viewing keeps the history within its bound and puts the viewed entity
      last. */
  lemma ViewsKeepHistoryBounded(s: Store, id: int)
    requires |s.history| <= History.MaxHistorySize
    ensures |GetTaskById(s, id).history| <= History.MaxHistorySize
    ensures |GetEpicById(s, id).history| <= History.MaxHistorySize
    ensures |GetSubtaskById(s, id).history| <= History.MaxHistorySize
    ensures id in s.tasks ==> Last(GetTaskById(s, id).history) == TaskItem(s.tasks[id])
  {
  }

  function Last(h: History.History): Item
    requires h != []
  {
    h[|h| - 1]
  }

  /** `getSubtasksOfEpic`: the epic's subtasks in list order (a Java `null`
      for a listed id with no subtask), or nothing for an unknown epic. */
  function GetSubtasksOfEpic(s: Store, epicId: int): (r: seq<Option<Subtask>>)
    ensures epicId !in s.epics ==> r == []
    ensures epicId in s.epics ==> |r| == |s.epics[epicId].subtaskIds|
    ensures epicId in s.epics ==> forall i :: 0 <= i < |r| ==>
      var sid := s.epics[epicId].subtaskIds[i];
      r[i] == (if sid in s.subtasks then Some(s.subtasks[sid]) else None)
  {
    if epicId !in s.epics then []
    else
      var ids := s.epics[epicId].subtaskIds;
      seq(|ids|, i requires 0 <= i < |ids| => if ids[i] in s.subtasks then Some(s.subtasks[ids[i]]) else None)
  }

  /** With the key invariant no entry is missing, and with the store linked
      every returned subtask names the epic asked about. */
  lemma SubtasksOfEpicAreOwned(s: Store, epicId: int, i: int)
    requires Linked(s) && epicId in s.epics
    requires 0 <= i < |GetSubtasksOfEpic(s, epicId)|
    ensures GetSubtasksOfEpic(s, epicId)[i].Some?
    ensures GetSubtasksOfEpic(s, epicId)[i].value.epicId == epicId
  {
    assert s.epics[epicId].subtaskIds[i] in s.subtasks;
  }

  // ---------------------------------------------------------------------------
  // Updating
  // ---------------------------------------------------------------------------

  /** `updateTask`: the caller's task replaces whatever has its id. */
  function UpdateTask(s: Store, t: Task): (r: Store)
    ensures t.id in r.tasks && r.tasks[t.id] == t
    ensures forall k :: k in s.tasks && k != t.id ==> k in r.tasks && r.tasks[k] == s.tasks[k]
    ensures r.tasks.Keys == s.tasks.Keys + {t.id}
    ensures r.epics == s.epics && r.subtasks == s.subtasks
    ensures r.history == s.history && r.nextId == s.nextId
  {
    s.(tasks := s.tasks[t.id := t])
  }

  /** `updateEpic`: the caller's epic replaces whatever has its id, and its
      status is recomputed from its list; every listed id must be a stored
      subtask, or the recomputation dereferences a missing one. */
  function UpdateEpic(s: Store, e: Epic): (r: Store)
    requires ListResolves(e.subtaskIds, s.subtasks)
    ensures e.base.id in r.epics
    ensures r.epics[e.base.id] == e.(base := e.base.(status := EpicStatusRule(StatusesOf(e.subtaskIds, s.subtasks))))
    ensures forall k :: k in s.epics && k != e.base.id ==> k in r.epics && r.epics[k] == s.epics[k]
    ensures r.epics.Keys == s.epics.Keys + {e.base.id}
    ensures r.tasks == s.tasks && r.subtasks == s.subtasks
    ensures r.history == s.history && r.nextId == s.nextId
  {
    s.(epics := s.epics[e.base.id := RefreshStatus(e, s.subtasks)])
  }

  /** `updateSubtask`: the caller's subtask replaces whatever has its id and,
      when its epic exists, that epic's status is recomputed. The epic's list
      is not touched. */
  function UpdateSubtask(s: Store, st: Subtask): (r: Store)
    requires st.epicId in s.epics ==>
      ListResolves(s.epics[st.epicId].subtaskIds, s.subtasks[st.base.id := st])
    ensures r.subtasks == s.subtasks[st.base.id := st]
    ensures r.epics.Keys == s.epics.Keys
    ensures forall k :: k in s.epics && k != st.epicId ==> r.epics[k] == s.epics[k]
    ensures st.epicId in s.epics ==>
      r.epics[st.epicId] == RefreshStatus(s.epics[st.epicId], r.subtasks)
    ensures r.tasks == s.tasks && r.history == s.history && r.nextId == s.nextId
  {
    var subtasks := s.subtasks[st.base.id := st];
    if st.epicId in s.epics then
      s.(subtasks := subtasks, epics := s.epics[st.epicId := RefreshStatus(s.epics[st.epicId], subtasks)])
    else
      s.(subtasks := subtasks)
  }

  // ---------------------------------------------------------------------------
  // Deleting
  // ---------------------------------------------------------------------------

  /** `deleteTaskById`: the task goes, and so does the first history entry
      with its id. */
  function DeleteTaskById(s: Store, id: int): (r: Store)
    ensures id !in r.tasks
    ensures forall k :: k in s.tasks && k != id ==> k in r.tasks && r.tasks[k] == s.tasks[k]
    ensures r.tasks.Keys == s.tasks.Keys - {id}
    ensures r.history == History.Remove(s.history, id)
    ensures r.epics == s.epics && r.subtasks == s.subtasks && r.nextId == s.nextId
  {
    s.(tasks := s.tasks - {id}, history := History.Remove(s.history, id))
  }

  /** `deleteEpicById`: the epic goes, and so does every subtask on its list;
      all other subtasks stay. */
  function DeleteEpicById(s: Store, id: int): (r: Store)
    ensures id !in r.epics && r.epics == s.epics - {id}
    ensures forall k :: k in r.subtasks <==>
      k in s.subtasks && (id in s.epics ==> k !in s.epics[id].subtaskIds)
    ensures forall k :: k in r.subtasks ==> r.subtasks[k] == s.subtasks[k]
    ensures r.tasks == s.tasks && r.history == s.history && r.nextId == s.nextId
  {
    if id !in s.epics then s
    else
      var ids := s.epics[id].subtaskIds;
      s.(epics := s.epics - {id}, subtasks := map k | k in s.subtasks && k !in ids :: s.subtasks[k])
  }

  /** What `deleteSubtaskById` needs so that its status recomputation meets
      no missing subtask: the owning epic's list, once the id is removed,
      resolves in the remaining subtasks. */
  predicate CanDeleteSubtask(s: Store, id: int) {
    id in s.subtasks && s.subtasks[id].epicId in s.epics ==>
      ListResolves(RemoveFirst(s.epics[s.subtasks[id].epicId].subtaskIds, id), s.subtasks - {id})
  }

  /** `deleteSubtaskById`: the subtask goes; its epic, when it exists, loses
      the first occurrence of the id from its list and has its status
      recomputed. An absent id changes nothing. */
  function DeleteSubtaskById(s: Store, id: int): (r: Store)
    requires CanDeleteSubtask(s, id)
    ensures id !in r.subtasks && r.subtasks == s.subtasks - {id}
    ensures r.epics.Keys == s.epics.Keys
    ensures id !in s.subtasks ==> r == s
    ensures id in s.subtasks ==>
      var epicId := s.subtasks[id].epicId;
      && (forall k :: k in s.epics && k != epicId ==> r.epics[k] == s.epics[k])
      && (epicId in s.epics ==>
            r.epics[epicId] == RefreshStatus(RemoveSubtaskId(s.epics[epicId], id), r.subtasks))
    ensures r.tasks == s.tasks && r.history == s.history && r.nextId == s.nextId
  {
    if id !in s.subtasks then s
    else
      var epicId := s.subtasks[id].epicId;
      var s1 := s.(subtasks := s.subtasks - {id});
      if epicId !in s.epics then s1
      else s1.(epics := s.epics[epicId := RefreshStatus(RemoveSubtaskId(s.epics[epicId], id), s1.subtasks)])
  }

  /** `deleteAllTasks`. */
  function DeleteAllTasks(s: Store): (r: Store)
    ensures r.tasks == map[]
    ensures r.epics == s.epics && r.subtasks == s.subtasks
    ensures r.history == s.history && r.nextId == s.nextId
  {
    s.(tasks := map[])
  }

  /** `deleteAllEpics`: no epic and no subtask is left. */
  function DeleteAllEpics(s: Store): (r: Store)
    ensures r.epics == map[] && r.subtasks == map[]
    ensures r.tasks == s.tasks && r.history == s.history && r.nextId == s.nextId
  {
    s.(epics := map[], subtasks := map[])
  }

  /** `deleteAllSubtasks`: every epic is left with an empty list and status
      NEW; nothing else about the epics changes. */
  function DeleteAllSubtasks(s: Store): (r: Store)
    ensures r.subtasks == map[]
    ensures r.epics.Keys == s.epics.Keys
    ensures forall k :: k in r.epics ==>
      && r.epics[k].subtaskIds == []
      && r.epics[k].base == s.epics[k].base.(status := New)
      && r.epics[k].endTime == s.epics[k].endTime
    ensures r.tasks == s.tasks && r.history == s.history && r.nextId == s.nextId
  {
    s.(epics := map k | k in s.epics :: RefreshStatus(ClearSubtasks(s.epics[k]), map[]),
       subtasks := map[])
  }

  // ---------------------------------------------------------------------------
  // addSubtask as the source writes it
  // ---------------------------------------------------------------------------

  /** `addSubtask` exactly as written: the self-reference check compares the
      epic id with the id the caller supplied, not with the id the subtask
      is given. Past the check it is the same as `AddSubtask`. */
  function AddSubtaskAsWritten(s: Store, st: Subtask): (r: Attempt)
    requires st.epicId != st.base.id ==> CanLink(s, st.epicId, AssignedId(s.nextId, st.base.id))
    ensures var id := AssignedId(s.nextId, st.base.id);
      && r.store.nextId == AllocateId(s.nextId, st.base.id).next
      && (CounterSafe(s.nextId, st.base.id) ==> r.store.nextId > id && r.store.nextId >= s.nextId)
      && (r.result == Err(SubtaskIsOwnEpic) <==> st.epicId == st.base.id)
      && (st.epicId == st.base.id ==> r.store == s.(nextId := r.store.nextId))
      && (st.epicId != st.base.id ==> PutAndLinked(s, st, id, r))
  {
    var a := AllocateId(s.nextId, st.base.id);
    var s1 := s.(nextId := a.next);
    if st.epicId == st.base.id then
      Attempt(s1, Err(SubtaskIsOwnEpic))
    else
      var copy := CopySubtask(st);
      LinkSubtask(s1, copy.(base := SetId(copy.base, a.id)))
  }

  /** A fresh subtask (id 0) naming epic 1, added to a new manager, is given
      id 1 and is stored as its own epic. */
  lemma AsWrittenStoresOwnEpic()
    ensures var r := AddSubtaskAsWritten(EmptyStore, NewSubtask("s", "d", New, 1));
      && r.result == Ok(1)
      && 1 in r.store.subtasks && r.store.subtasks[1].epicId == 1
      && !NoSelfOwned(r.store)
  {
  }

  /** A fresh subtask naming epic 0 is refused as its own epic although it
      would have been given id 1. */
  lemma AsWrittenRefusesFreshSubtaskOfEpicZero()
    ensures AssignedId(EmptyStore.nextId, 0) == 1
    ensures AddSubtaskAsWritten(EmptyStore, NewSubtask("s", "d", New, 0)).result == Err(SubtaskIsOwnEpic)
  {
  }

  /** The corrected check never stores a subtask as its own epic, and accepts
      both subtasks above. */
  lemma AddSubtaskNeverSelfOwned(s: Store, st: Subtask)
    requires st.epicId != AssignedId(s.nextId, st.base.id) ==>
      CanLink(s, st.epicId, AssignedId(s.nextId, st.base.id))
    requires NoSelfOwned(s)
    ensures NoSelfOwned(AddSubtask(s, st).store)
    ensures AddSubtask(EmptyStore, NewSubtask("s", "d", New, 0)).result == Ok(1)
    ensures AddSubtask(EmptyStore, NewSubtask("s", "d", New, 1)).result == Err(SubtaskIsOwnEpic)
  {
  }

  // ---------------------------------------------------------------------------
  // The operations keep the store valid
  // ---------------------------------------------------------------------------

  /** The adds keep the store valid only while the counter stays below
      2147483647: see `CounterWrapOverwrites` for what happens past it. */
  lemma AddTaskKeepsValid(s: Store, t: Task)
    requires Valid(s) && CounterSafe(s.nextId, t.id)
    ensures Valid(AddTask(s, t).store)
  {
  }

  /** Past the wrap the counter falls behind the stored ids: after a task
      with id 2147483647 is added to a manager holding task 1, the counter
      is negative, and two more fresh tasks get ids -2147483648 and then 1,
      replacing task 1. Four adds leave three tasks. */
  lemma CounterWrapOverwrites(a: Task, b: Task, c: Task, d: Task)
    requires a.id == 0 && b.id == Int32Max && c.id == 0 && d.id == 0
    ensures var s1 := AddTask(EmptyStore, a); var s2 := AddTask(s1.store, b);
      var s3 := AddTask(s2.store, c); var s4 := AddTask(s3.store, d);
      && s1.id == 1 && s2.id == Int32Max && s3.id == Int32Min && s4.id == 1
      && Valid(s1.store) && !CounterAhead(s2.store)
      && s4.store.tasks[1] == d.(id := 1)
      && |s4.store.tasks| == 3
  {
    var s1 := AddTask(EmptyStore, a);
    var s2 := AddTask(s1.store, b);
    var s3 := AddTask(s2.store, c);
    var s4 := AddTask(s3.store, d);
    assert s2.store.nextId == Int32Min;
    assert s3.store.nextId == 1;
    assert s4.store.tasks.Keys == {1, Int32Max, Int32Min};
  }

  /** A list an epic with id `owner` may carry without breaking the links. */
  predicate ListOwnedBy(ids: seq<int>, subtasks: map<int, Subtask>, owner: int) {
    && NoDuplicates(ids)
    && (forall i :: 0 <= i < |ids| ==> ids[i] in subtasks && subtasks[ids[i]].epicId == owner)
  }

  lemma AddEpicKeepsValid(s: Store, e: Epic)
    requires Valid(s) && CounterSafe(s.nextId, e.base.id)
    requires ListOwnedBy(e.subtaskIds, s.subtasks, AssignedId(s.nextId, e.base.id))
    ensures Valid(AddEpic(s, e).store)
  {
  }

  /** A new epic (empty list) can always be added. */
  lemma AddNewEpicKeepsValid(s: Store, title: string, description: string)
    requires Valid(s) && s.nextId < Int32Max
    ensures Valid(AddEpic(s, NewEpic(title, description)).store)
  {
    AddEpicKeepsValid(s, NewEpic(title, description));
  }

  lemma AddSubtaskKeepsValid(s: Store, st: Subtask)
    requires Valid(s) && CounterSafe(s.nextId, st.base.id)
    requires st.base.id > 0 ==> st.base.id !in s.subtasks
    ensures Valid(AddSubtask(s, st).store)
    ensures AddSubtask(s, st).result.Ok? <==> st.epicId != AssignedId(s.nextId, st.base.id)
  {
    if st.epicId != AssignedId(s.nextId, st.base.id) {
      SubtaskIdIsNew(s, st);
      AddSubtaskKeepsLinked(s, st);
      AddSubtaskKeepsKeys(s, st);
    }
  }

  /** Adding a subtask under an id already stored and listed, as
      `addSubtask` allows: the put replaces the subtask, `addSubtaskId`
      lists the id a second time, and the store is no longer valid. A later
      `deleteSubtaskById` of that id then leaves the second entry dangling,
      which its status recomputation cannot resolve. */
  lemma ReaddedSubtaskIsListedTwice(s: Store, st: Subtask)
    requires Valid(s) && CounterSafe(s.nextId, st.base.id)
    requires st.base.id > 0 && st.epicId in s.epics
    requires st.base.id in s.epics[st.epicId].subtaskIds
    ensures var r := AddSubtask(s, st);
      && r.result == Ok(st.base.id)
      && multiset(r.store.epics[st.epicId].subtaskIds)[st.base.id] == 2
      && !Valid(r.store)
      && !CanDeleteSubtask(r.store, st.base.id)
  {
    var id := st.base.id;
    var before := s.epics[st.epicId].subtaskIds;
    ReaddAppends(s, st);
    var r := AddSubtask(s, st);
    var l := r.store.epics[st.epicId].subtaskIds;
    ListedTwice(before, id);
    assert !NoDuplicates(l);
    assert r.store.subtasks[id].epicId == st.epicId;
    var rest := RemoveFirst(l, id);
    var j :| 0 <= j < |rest| && rest[j] == id;
    assert rest[j] !in r.store.subtasks - {id};
  }

  /** The re-add is accepted and appends the id to the list a second time. */
  lemma ReaddAppends(s: Store, st: Subtask)
    requires Valid(s) && CounterSafe(s.nextId, st.base.id)
    requires st.base.id > 0 && st.epicId in s.epics
    requires st.base.id in s.epics[st.epicId].subtaskIds
    ensures st.epicId != AssignedId(s.nextId, st.base.id)
    ensures CanLink(s, st.epicId, st.base.id)
    ensures var r := AddSubtask(s, st);
      && r.result == Ok(st.base.id)
      && st.epicId in r.store.epics && st.base.id in r.store.subtasks
      && r.store.subtasks[st.base.id].epicId == st.epicId
      && r.store.epics[st.epicId].subtaskIds == s.epics[st.epicId].subtaskIds + [st.base.id]
      && NoDuplicates(s.epics[st.epicId].subtaskIds)
  {
    var id := st.base.id;
    var before := s.epics[st.epicId].subtaskIds;
    assert AssignedId(s.nextId, id) == id;
    var i :| 0 <= i < |before| && before[i] == id;
    assert s.subtasks[id].epicId == st.epicId;
    assert ResolvesAfterPut(before, s.subtasks, id);
  }

  /** Appending an id a duplicate-free list already holds: it occurs twice,
      and removing its first occurrence leaves the other. */
  lemma ListedTwice(ids: seq<int>, x: int)
    requires NoDuplicates(ids) && x in ids
    ensures multiset(ids + [x])[x] == 2
    ensures !NoDuplicates(ids + [x])
    ensures x in RemoveFirst(ids + [x], x)
  {
    var i :| 0 <= i < |ids| && ids[i] == x;
    NoDuplicatesCountsOnce(ids, i);
    var l := ids + [x];
    assert multiset(l) == multiset(ids) + multiset{x};
    assert l[i] == x && l[|ids|] == x;
    RemoveFirstCount(l, x);
    assert x in multiset(RemoveFirst(l, x));
  }

  /** In a list without repeats, each entry occurs once. */
  lemma NoDuplicatesCountsOnce(ids: seq<int>, i: int)
    requires NoDuplicates(ids) && 0 <= i < |ids|
    ensures multiset(ids)[ids[i]] == 1
  {
    var x := ids[i];
    var front, back := ids[..i], ids[i + 1..];
    assert ids == front + [x] + back;
    assert x !in front by {
      forall j | 0 <= j < |front| ensures front[j] != x {
        assert front[j] == ids[j];
      }
    }
    assert x !in back by {
      forall j | 0 <= j < |back| ensures back[j] != x {
        assert back[j] == ids[i + 1 + j];
      }
    }
    assert multiset(ids) == multiset(front) + multiset{x} + multiset(back);
  }

  /** The id a new subtask gets is not yet a subtask's. */
  lemma SubtaskIdIsNew(s: Store, st: Subtask)
    requires CounterAhead(s)
    requires st.base.id > 0 ==> st.base.id !in s.subtasks
    ensures AssignedId(s.nextId, st.base.id) !in s.subtasks
  {
  }

  lemma AddSubtaskKeepsLinked(s: Store, st: Subtask)
    requires Valid(s)
    requires AssignedId(s.nextId, st.base.id) !in s.subtasks
    requires st.epicId != AssignedId(s.nextId, st.base.id)
    ensures Linked(AddSubtask(s, st).store)
  {
    var id := AssignedId(s.nextId, st.base.id);
    var r := AddSubtask(s, st).store;
    forall k | k in r.epics
      ensures ListOwnedBy(r.epics[k].subtaskIds, r.subtasks, k)
    {
      var ids := s.epics[k].subtaskIds;
      assert ListOwnedBy(ids, s.subtasks, k);
      assert forall i :: 0 <= i < |ids| ==> ids[i] != id;
      if k == st.epicId {
        assert r.epics[k].subtaskIds == ids + [id];
      } else {
        assert r.epics[k] == s.epics[k];
      }
    }
  }

  lemma AddSubtaskKeepsKeys(s: Store, st: Subtask)
    requires Valid(s) && CounterSafe(s.nextId, st.base.id)
    requires st.epicId != AssignedId(s.nextId, st.base.id)
    ensures KeysMatchIds(AddSubtask(s, st).store)
    ensures NoSelfOwned(AddSubtask(s, st).store)
    ensures CounterAhead(AddSubtask(s, st).store)
  {
    var r := AddSubtask(s, st).store;
    forall k | k in r.epics
      ensures r.epics[k].base.id == k
    {
      if k != st.epicId {
        assert r.epics[k] == s.epics[k];
      }
    }
  }

  lemma ViewsKeepValid(s: Store, id: int)
    requires Valid(s)
    ensures Valid(GetTaskById(s, id)) && Valid(GetEpicById(s, id)) && Valid(GetSubtaskById(s, id))
  {
  }

  lemma UpdateTaskKeepsValid(s: Store, t: Task)
    requires Valid(s) && t.id in s.tasks
    ensures Valid(UpdateTask(s, t))
  {
  }

  lemma UpdateEpicKeepsValid(s: Store, e: Epic)
    requires Valid(s) && e.base.id in s.epics
    requires ListOwnedBy(e.subtaskIds, s.subtasks, e.base.id)
    ensures Valid(UpdateEpic(s, e))
  {
  }

  lemma UpdateSubtaskKeepsValid(s: Store, st: Subtask)
    requires Valid(s) && st.base.id in s.subtasks
    requires s.subtasks[st.base.id].epicId == st.epicId
    ensures st.epicId in s.epics ==>
      ListResolves(s.epics[st.epicId].subtaskIds, s.subtasks[st.base.id := st])
    ensures Valid(UpdateSubtask(s, st))
  {
  }

  lemma DeleteTaskKeepsValid(s: Store, id: int)
    requires Valid(s)
    ensures Valid(DeleteTaskById(s, id))
  {
  }

  lemma DeleteEpicKeepsValid(s: Store, id: int)
    requires Valid(s)
    ensures Valid(DeleteEpicById(s, id))
  {
    var r := DeleteEpicById(s, id);
    if id in s.epics {
      forall k, i | k in r.epics && 0 <= i < |r.epics[k].subtaskIds|
        ensures r.epics[k].subtaskIds[i] in r.subtasks
      {
        var x := r.epics[k].subtaskIds[i];
        var gone := s.epics[id].subtaskIds;
        assert s.subtasks[x].epicId == k && k != id;
        assert x !in gone by {
          forall j | 0 <= j < |gone|
            ensures gone[j] != x
          {
            assert s.subtasks[gone[j]].epicId == id;
          }
        }
      }
    }
  }

  /** Position `k` of a list with position `i` cut out. */
  lemma CutIndex(ids: seq<int>, i: int, k: int)
    requires 0 <= i < |ids| && 0 <= k < |ids| - 1
    ensures (ids[..i] + ids[i + 1..])[k] == ids[if k < i then k else k + 1]
  {
  }

  /** Removing an id from a list with no repeats leaves a list with no
      repeats that does not mention it, and whose every element was on the
      list. */
  lemma RemoveFirstDropsAll(ids: seq<int>, id: int)
    requires NoDuplicates(ids) && id in ids
    ensures forall k :: 0 <= k < |RemoveFirst(ids, id)| ==>
      RemoveFirst(ids, id)[k] != id && RemoveFirst(ids, id)[k] in ids
    ensures NoDuplicates(RemoveFirst(ids, id))
  {
    var i := RemoveFirstCutsFirst(ids, id);
    var c := ids[..i] + ids[i + 1..];
    assert RemoveFirst(ids, id) == c;
    forall k | 0 <= k < |c|
      ensures c[k] != id && c[k] in ids
    {
      CutIndex(ids, i, k);
    }
    forall k1, k2 | 0 <= k1 < k2 < |c|
      ensures c[k1] != c[k2]
    {
      CutIndex(ids, i, k1);
      CutIndex(ids, i, k2);
    }
  }

  lemma RemoveFirstResolves(ids: seq<int>, id: int, subtasks: map<int, Subtask>)
    requires ListResolves(ids, subtasks) && NoDuplicates(ids)
    ensures ListResolves(RemoveFirst(ids, id), subtasks - {id})
  {
    if id in ids {
      RemoveFirstDropsAll(ids, id);
    }
  }

  /** In a valid store the recomputation in `deleteSubtaskById` is safe. */
  lemma ValidCanDeleteSubtask(s: Store, id: int)
    requires Valid(s)
    ensures CanDeleteSubtask(s, id)
  {
    if id in s.subtasks && s.subtasks[id].epicId in s.epics {
      var k := s.subtasks[id].epicId;
      assert ListResolves(s.epics[k].subtaskIds, s.subtasks);
      assert NoDuplicates(s.epics[k].subtaskIds);
      RemoveFirstResolves(s.epics[k].subtaskIds, id, s.subtasks);
    }
  }

  lemma DeleteSubtaskKeepsValid(s: Store, id: int)
    requires Valid(s)
    ensures CanDeleteSubtask(s, id)
    ensures Valid(DeleteSubtaskById(s, id))
  {
    ValidCanDeleteSubtask(s, id);
    if id in s.subtasks {
      var owner := s.subtasks[id].epicId;
      var r := DeleteSubtaskById(s, id);
      forall k | k in s.epics && k != owner
        ensures id !in s.epics[k].subtaskIds
      {
        var ids := s.epics[k].subtaskIds;
        forall j | 0 <= j < |ids|
          ensures ids[j] != id
        {
          assert s.subtasks[ids[j]].epicId == k;
        }
      }
      if owner in s.epics {
        var ids := s.epics[owner].subtaskIds;
        if id in ids {
          RemoveFirstDropsAll(ids, id);
        }
        assert r.epics[owner].subtaskIds == RemoveFirst(ids, id);
      }
    }
  }

  lemma DeleteAllKeepValid(s: Store)
    requires Valid(s)
    ensures Valid(DeleteAllTasks(s))
    ensures Valid(DeleteAllEpics(s))
    ensures Valid(DeleteAllSubtasks(s))
  {
  }
}
