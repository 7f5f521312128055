/** The entity model: tasks, epics that group subtasks, and subtasks that
    name their epic (model/Task.java, model/Epic.java, model/Subtask.java).
    Objects become immutable values; setters and copy constructors become
    functions returning the changed value. Durations and start times are
    whole minutes. */
module Model {
  import opened Wrappers

  /** TaskStatus. */
  datatype Status = New | InProgress | Done

  /** TypeTask, the kind tag written to the CSV file. */
  datatype Kind = TaskKind | EpicKind | SubtaskKind

  /** The fields every work item carries. `id == 0` means "not yet assigned". */
  datatype Task = Task(
    title: string,
    description: string,
    id: int,
    status: Status,
    duration: Option<int>,
    startTime: Option<int>)

  /** An epic: a task plus the ordered ids of its subtasks and the end time
      derived from them. */
  datatype Epic = Epic(base: Task, subtaskIds: seq<int>, endTime: Option<int>)

  /** A subtask: a task plus the id of its epic, fixed at construction. */
  datatype Subtask = Subtask(base: Task, epicId: int)

  /** Any of the three kinds, as held by the view history. */
  datatype Item = TaskItem(task: Task) | EpicItem(epic: Epic) | SubtaskItem(subtask: Subtask)

  /** The refusal of `Epic.addSubtaskId`. */
  datatype EpicError = EpicContainsItself

  // ---------------------------------------------------------------------------
  // Task
  // ---------------------------------------------------------------------------

  /** `new Task(title, description, status)`: no id yet, no time fields. */
  function NewTask(title: string, description: string, status: Status): (t: Task)
    ensures t.id == 0
    ensures t.title == title && t.description == description && t.status == status
    ensures t.duration.None? && t.startTime.None?
  {
    Task(title, description, 0, status, None, None)
  }

  /** The copy constructor `new Task(other)`: an equal, independent value. */
  function CopyTask(other: Task): (t: Task)
    ensures t == other
  {
    Task(other.title, other.description, other.id, other.status, other.duration, other.startTime)
  }

  /** `setTitle`: only the title changes. */
  function SetTitle(t: Task, title: string): (r: Task)
    ensures r.title == title
    ensures r == Task(title, t.description, t.id, t.status, t.duration, t.startTime)
  {
    t.(title := title)
  }

  /** `setDescription`: only the description changes. */
  function SetDescription(t: Task, description: string): (r: Task)
    ensures r.description == description
    ensures r == Task(t.title, description, t.id, t.status, t.duration, t.startTime)
  {
    t.(description := description)
  }

  /** `setId`: only the id changes. */
  function SetId(t: Task, id: int): (r: Task)
    ensures r.id == id
    ensures r == Task(t.title, t.description, id, t.status, t.duration, t.startTime)
  {
    t.(id := id)
  }

  /** `setStatus`: only the status changes. */
  function SetStatus(t: Task, status: Status): (r: Task)
    ensures r.status == status
    ensures r == Task(t.title, t.description, t.id, status, t.duration, t.startTime)
  {
    t.(status := status)
  }

  // ---------------------------------------------------------------------------
  // Identity of items: equals, hashCode, getType, clone
  // ---------------------------------------------------------------------------

  /** The common record of any item. */
  function BaseOf(x: Item): Task {
    match x
    case TaskItem(t) => t
    case EpicItem(e) => e.base
    case SubtaskItem(s) => s.base
  }

  function IdOf(x: Item): int {
    BaseOf(x).id
  }

  /** `Task.equals`: `instanceof Task` holds for epics and subtasks too, so
      items of any kinds are equal exactly when their ids are; no other
      field counts. */
  function ItemEquals(a: Item, b: Item): (r: bool)
    ensures a == b ==> r
    ensures r <==> BaseOf(a).id == BaseOf(b).id
  {
    IdOf(a) == IdOf(b)
  }

  /** `Task.hashCode`, which is `Integer.hashCode(id)`: the id itself. */
  function HashCode(x: Item): (h: int)
    ensures h == BaseOf(x).id
  {
    IdOf(x)
  }

  /** Consequences of the two contracts: `equals` is an equivalence
      relation and agrees with `hashCode`, as `HashMap` keys require. */
  lemma EqualsIsConsistent(a: Item, b: Item, c: Item)
    ensures ItemEquals(a, a)
    ensures ItemEquals(a, b) ==> ItemEquals(b, a)
    ensures ItemEquals(a, b) && ItemEquals(b, c) ==> ItemEquals(a, c)
    ensures ItemEquals(a, b) ==> HashCode(a) == HashCode(b)
  {
  }

  /** `getType`. */
  function KindOf(x: Item): (k: Kind)
    ensures x.SubtaskItem? <==> k == SubtaskKind
    ensures x.EpicItem? <==> k == EpicKind
  {
    match x
    case TaskItem(_) => TaskKind
    case EpicItem(_) => EpicKind
    case SubtaskItem(_) => SubtaskKind
  }

  /** `clone`: each kind calls its own copy constructor. */
  function Clone(x: Item): (c: Item)
    ensures c == x && KindOf(c) == KindOf(x)
  {
    match x
    case TaskItem(t) => TaskItem(CopyTask(t))
    case EpicItem(e) => EpicItem(CopyEpic(e))
    case SubtaskItem(s) => SubtaskItem(CopySubtask(s))
  }

  // ---------------------------------------------------------------------------
  // Subtask
  // ---------------------------------------------------------------------------

  /** `new Subtask(title, description, status, epicId)`. */
  function NewSubtask(title: string, description: string, status: Status, epicId: int): (s: Subtask)
    ensures s.base == NewTask(title, description, status) && s.epicId == epicId
  {
    Subtask(NewTask(title, description, status), epicId)
  }

  /** The copy constructor `new Subtask(other)`. */
  function CopySubtask(other: Subtask): (s: Subtask)
    ensures s == other
  {
    Subtask(CopyTask(other.base), other.epicId)
  }

  /** A setter applied to a subtask acts on its common record; the epic id,
      which is final, is carried over. */
  function UpdateSubtaskBase(s: Subtask, base: Task): (r: Subtask)
    ensures r.base == base && r.epicId == s.epicId
  {
    Subtask(base, s.epicId)
  }

  // ---------------------------------------------------------------------------
  // Epic: the list of subtask ids
  // ---------------------------------------------------------------------------

  /** `new Epic(title, description)`: status NEW, no subtasks, no end time. */
  function NewEpic(title: string, description: string): (e: Epic)
    ensures e.base == NewTask(title, description, New)
    ensures e.subtaskIds == [] && e.endTime.None?
  {
    Epic(NewTask(title, description, New), [], None)
  }

  /** The copy constructor `new Epic(other)`: title, description, status,
      id, subtask ids, duration, start and end all carried over. */
  function CopyEpic(other: Epic): (e: Epic)
    ensures e == other
  {
    Epic(CopyTask(other.base), other.subtaskIds, other.endTime)
  }

  /** `getSubtaskIds`: the current list, as a value the caller cannot use to
      change the epic. */
  function SubtaskIds(e: Epic): (ids: seq<int>)
    ensures ids == e.subtaskIds
  {
    e.subtaskIds
  }

  /** `addSubtaskId`: the epic's own id is refused; any other id goes to the
      end of the list. */
  function AddSubtaskId(e: Epic, id: int): (r: Result<Epic, EpicError>)
    ensures r.Err? <==> id == e.base.id
    ensures r.Ok? ==> r.value.subtaskIds == e.subtaskIds + [id]
    ensures r.Ok? ==> r.value.base == e.base && r.value.endTime == e.endTime
  {
    if id == e.base.id then Err(EpicContainsItself)
    else Ok(e.(subtaskIds := e.subtaskIds + [id]))
  }

  /** `List.remove(Integer.valueOf(x))`: the first occurrence of `x` is
      deleted; everything else keeps its order. */
  function RemoveFirst(s: seq<int>, x: int): (r: seq<int>)
    ensures x !in s ==> r == s
    ensures |r| <= |s|
    decreases |s|
  {
    if s == [] then []
    else if s[0] == x then s[1..]
    else [s[0]] + RemoveFirst(s[1..], x)
  }

  /** As multisets, removal takes away one occurrence of `x`, if any. */
  lemma {:induction false} RemoveFirstCount(s: seq<int>, x: int)
    ensures multiset(RemoveFirst(s, x)) == multiset(s) - multiset{x}
    decreases |s|
  {
    if s != [] {
      assert s == [s[0]] + s[1..];
      if s[0] != x {
        RemoveFirstCount(s[1..], x);
      }
    }
  }

  /** Exactly the first occurrence goes: `r` is `s` with position `i` cut
      out, where `i` is the first index holding `x`. */
  lemma {:induction false} RemoveFirstCutsFirst(s: seq<int>, x: int) returns (i: int)
    requires x in s
    ensures 0 <= i < |s| && s[i] == x
    ensures forall k :: 0 <= k < i ==> s[k] != x
    ensures RemoveFirst(s, x) == s[..i] + s[i + 1..]
    decreases |s|
  {
    if s[0] == x {
      i := 0;
    } else {
      var t := s[1..];
      assert x in t by {
        var k :| 0 <= k < |s| && s[k] == x;
        assert t[k - 1] == x;
      }
      var j := RemoveFirstCutsFirst(t, x);
      i := j + 1;
      CutFirstStep(s, x, j);
    }
  }

  /** The step of the induction: cutting position `j` of the tail is
      cutting position `j + 1` of the whole. */
  lemma CutFirstStep(s: seq<int>, x: int, j: int)
    requires s != [] && s[0] != x && 0 <= j < |s| - 1
    requires RemoveFirst(s[1..], x) == s[1..][..j] + s[1..][j + 1..]
    ensures RemoveFirst(s, x) == s[..j + 1] + s[j + 2..]
  {
    var t := s[1..];
    assert RemoveFirst(s, x) == [s[0]] + (t[..j] + t[j + 1..]);
    assert s[..j + 1] == [s[0]] + t[..j];
    assert s[j + 2..] == t[j + 1..];
    assert [s[0]] + (t[..j] + t[j + 1..]) == ([s[0]] + t[..j]) + t[j + 1..];
  }

  /** `removeSubtaskId`. */
  function RemoveSubtaskId(e: Epic, id: int): (r: Epic)
    ensures r.subtaskIds == RemoveFirst(e.subtaskIds, id)
    ensures r.base == e.base && r.endTime == e.endTime
  {
    e.(subtaskIds := RemoveFirst(e.subtaskIds, id))
  }

  /** `clearSubtasks`. */
  function ClearSubtasks(e: Epic): (r: Epic)
    ensures r.subtaskIds == []
    ensures r.base == e.base && r.endTime == e.endTime
  {
    e.(subtaskIds := [])
  }

  // ---------------------------------------------------------------------------
  // Epic: the time window (updateEpicTime)
  // ---------------------------------------------------------------------------

  /** What the time aggregation reads of one subtask: its duration, its
      start, and its end time (supplied by the caller). */
  datatype Window = Window(duration: Option<int>, start: Option<int>, end: Option<int>)

  function WindowOf(s: Subtask, end: Option<int>): Window {
    Window(s.base.duration, s.base.startTime, end)
  }

  /** Sum of the present durations; a missing duration adds nothing. */
  function SumDurations(ws: seq<Window>): int
    decreases |ws|
  {
    if ws == [] then 0
    else (match ws[0].duration case Some(d) => d case None => 0) + SumDurations(ws[1..])
  }

  /** The smaller of two optional values, absent only when both are. */
  function MinOpt(a: Option<int>, b: Option<int>): Option<int> {
    match (a, b)
    case (None, _) => b
    case (_, None) => a
    case (Some(x), Some(y)) => Some(if x <= y then x else y)
  }

  /** The larger of two optional values, absent only when both are. */
  function MaxOpt(a: Option<int>, b: Option<int>): Option<int> {
    match (a, b)
    case (None, _) => b
    case (_, None) => a
    case (Some(x), Some(y)) => Some(if x >= y then x else y)
  }

  /** The earliest present start, or absent when no subtask has one. */
  function EarliestStart(ws: seq<Window>): (r: Option<int>)
    ensures r.None? <==> forall i :: 0 <= i < |ws| ==> ws[i].start.None?
    ensures r.Some? ==> forall i :: 0 <= i < |ws| && ws[i].start.Some? ==> r.value <= ws[i].start.value
    ensures r.Some? ==> exists i :: 0 <= i < |ws| && ws[i].start == r
    decreases |ws|
  {
    if ws == [] then None
    else
      var rest := EarliestStart(ws[1..]);
      assert forall i :: 1 <= i < |ws| ==> ws[i] == ws[1..][i - 1];
      MinOpt(ws[0].start, rest)
  }

  /** The latest present end, or absent when no subtask has one. */
  function LatestEnd(ws: seq<Window>): (r: Option<int>)
    ensures r.None? <==> forall i :: 0 <= i < |ws| ==> ws[i].end.None?
    ensures r.Some? ==> forall i :: 0 <= i < |ws| && ws[i].end.Some? ==> ws[i].end.value <= r.value
    ensures r.Some? ==> exists i :: 0 <= i < |ws| && ws[i].end == r
    decreases |ws|
  {
    if ws == [] then None
    else
      var rest := LatestEnd(ws[1..]);
      assert forall i :: 1 <= i < |ws| ==> ws[i] == ws[1..][i - 1];
      MaxOpt(ws[0].end, rest)
  }

  /** `updateEpicTime`: with no subtasks the duration is zero and there is no
      start or end; otherwise the duration is the sum of the present
      durations, the start the earliest present start and the end the latest
      present end. Nothing else about the epic changes. */
  function UpdateEpicTime(e: Epic, ws: seq<Window>): (r: Epic)
    ensures ws == [] ==> r.base.duration == Some(0) && r.base.startTime.None? && r.endTime.None?
    ensures r.base.duration == Some(SumDurations(ws))
    ensures r.base.startTime == EarliestStart(ws) && r.endTime == LatestEnd(ws)
    ensures r.base.(duration := e.base.duration, startTime := e.base.startTime) == e.base
    ensures r.subtaskIds == e.subtaskIds
  {
    if ws == [] then
      e.(base := e.base.(duration := Some(0), startTime := None), endTime := None)
    else
      e.(base := e.base.(duration := Some(SumDurations(ws)), startTime := EarliestStart(ws)),
         endTime := LatestEnd(ws))
  }

  /** Appending subtasks adds their durations to the total. */
  lemma {:induction false} SumDurationsAppend(a: seq<Window>, b: seq<Window>)
    ensures SumDurations(a + b) == SumDurations(a) + SumDurations(b)
    decreases |a|
  {
    if a == [] {
      assert a + b == b;
    } else {
      assert (a + b)[1..] == a[1..] + b;
      SumDurationsAppend(a[1..], b);
    }
  }

  /** A subtask without a duration leaves the total unchanged, and with no
      negative durations the total is never negative. */
  lemma {:induction false} SumDurationsMissing(ws: seq<Window>, w: Window)
    requires w.duration.None?
    ensures SumDurations(ws + [w]) == SumDurations(ws)
  {
    SumDurationsAppend(ws, [w]);
    assert [w][1..] == [];
  }

  lemma {:induction false} SumDurationsNonNegative(ws: seq<Window>)
    requires forall i :: 0 <= i < |ws| && ws[i].duration.Some? ==> ws[i].duration.value >= 0
    ensures SumDurations(ws) >= 0
    decreases |ws|
  {
    if ws != [] {
      assert forall i :: 1 <= i < |ws| ==> ws[i] == ws[1..][i - 1];
      SumDurationsNonNegative(ws[1..]);
    }
  }

  /** The epic's window covers every subtask's: its start is at or before
      every present start and its end at or after every present end. */
  lemma EpicWindowCoversSubtasks(e: Epic, ws: seq<Window>, i: int)
    requires 0 <= i < |ws|
    ensures var r := UpdateEpicTime(e, ws);
      && (ws[i].start.Some? ==> r.base.startTime.Some? && r.base.startTime.value <= ws[i].start.value)
      && (ws[i].end.Some? ==> r.endTime.Some? && ws[i].end.value <= r.endTime.value)
  {
  }
}
