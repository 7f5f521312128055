/** The file-backed manager of service/FileBackedTaskManager.java without
    the file: `save` yields the lines it would write, `loadFromFile` takes
    the lines it would read. The map iteration order `save` depends on is a
    parameter. */
module FileStore {
  import opened Wrappers
  import opened JavaText
  import opened Model
  import opened TaskStore
  import opened Csv

  /** The exceptions `loadFromFile` can end with. */
  datatype LoadError =
    | BadHeader            // the first line is not CSV_HEADER
    | BadRow(line: nat)    // the line at this index did not decode or add

  /** A row decoder, such as `fromString`. */
  type Reader = string -> Result<Item, RowError>

  /** The manager's add for a decoded entity: the store it leaves, or None
      when it throws. */
  type Adder = (Store, Item) -> Option<Store>

  // ---------------------------------------------------------------------------
  // Loading
  // ---------------------------------------------------------------------------

  /** `addSubtask` (with the corrected self-reference check) as the loader
      meets it: it throws when the subtask would be its own epic, when its
      epic refuses the id, and when recomputing the epic's status reads a
      listed id that has no subtask (the NullPointerException of
      `updateEpicStatus`, which runs after the new subtask is put). */
  function AddSubtaskItem(s: Store, st: Subtask): (r: Option<Store>)
    ensures var id := AssignedId(s.nextId, st.base.id);
      st.epicId != id && !CanLink(s, st.epicId, id) ==> r == None
    ensures var id := AssignedId(s.nextId, st.base.id);
      st.epicId == id || CanLink(s, st.epicId, id) ==>
        (r.Some? <==> AddSubtask(s, st).result.Ok?) && (r.Some? ==> r.value == AddSubtask(s, st).store)
  {
    var id := AssignedId(s.nextId, st.base.id);
    if st.epicId != id && !CanLink(s, st.epicId, id) then None
    else
      var a := AddSubtask(s, st);
      if a.result.Ok? then Some(a.store) else None
  }

  /** The add `loadFromFile` calls for each kind of decoded entity, with the
      corrected `addSubtask`. */
  function AddItem(s: Store, x: Item): Option<Store> {
    match x
    case TaskItem(t) => Some(AddTask(s, t).store)
    case EpicItem(e) => Some(AddEpic(s, e).store)
    case SubtaskItem(st) => AddSubtaskItem(s, st)
  }

  /** `addSubtask` exactly as written, as the loader meets it. */
  function AddSubtaskItemAsWritten(s: Store, st: Subtask): (r: Option<Store>)
    ensures st.epicId == st.base.id ==> r == None
    ensures st.epicId != st.base.id && !CanLink(s, st.epicId, AssignedId(s.nextId, st.base.id)) ==> r == None
    ensures st.epicId != st.base.id && CanLink(s, st.epicId, AssignedId(s.nextId, st.base.id)) ==>
      (r.Some? <==> AddSubtaskAsWritten(s, st).result.Ok?) && (r.Some? ==> r.value == AddSubtaskAsWritten(s, st).store)
  {
    if st.epicId != st.base.id && !CanLink(s, st.epicId, AssignedId(s.nextId, st.base.id)) then None
    else
      var a := AddSubtaskAsWritten(s, st);
      if a.result.Ok? then Some(a.store) else None
  }

  /** The adds `loadFromFile` calls, exactly as written. */
  function AddItemAsWritten(s: Store, x: Item): (r: Option<Store>)
    ensures !x.SubtaskItem? ==> r == AddItem(s, x)
  {
    match x
    case SubtaskItem(st) => AddSubtaskItemAsWritten(s, st)
    case _ => AddItem(s, x)
  }

  /** What one line after the header comes to. */
  datatype LineOutcome =
    | Skipped              // blank after trimming
    | Refused              // did not decode, or the add threw
    | Loaded(store: Store)

  /** One trimmed line of the loop in `loadFromFile`: an empty line is
      skipped; otherwise `read` must decode it and `add` must take the
      entity. */
  function LoadLine(s: Store, line: string, read: Reader, add: Adder): (r: LineOutcome)
    ensures r.Skipped? <==> line == []
  {
    if line == [] then Skipped
    else
      match read(line)
      case Err(_) => Refused
      case Ok(x) =>
        match add(s, x)
        case None => Refused
        case Some(s1) => Loaded(s1)
  }

  /** The loop of `loadFromFile` over the trimmed lines after the header:
      an empty line is skipped; any line that does not decode, or whose
      entity the add refuses, ends the load with that line's index. */
  function LoadRows(s: Store, lines: seq<string>, first: nat, read: Reader, add: Adder): (r: Result<Store, LoadError>)
    ensures r.Err? ==> r.error.BadRow? && first <= r.error.line < first + |lines|
    decreases |lines|
  {
    if lines == [] then Ok(s)
    else
      match LoadLine(s, lines[0], read, add)
      case Skipped => LoadRows(s, lines[1..], first + 1, read, add)
      case Refused => Err(BadRow(first))
      case Loaded(s1) => LoadRows(s1, lines[1..], first + 1, read, add)
  }

  /** Every line trimmed, as the loop does before looking at one. */
  function TrimAll(lines: seq<string>): (r: seq<string>)
    ensures |r| == |lines| && forall i :: 0 <= i < |lines| ==> r[i] == Trim(lines[i])
  {
    seq(|lines|, i requires 0 <= i < |lines| => Trim(lines[i]))
  }

  /** `loadFromFile` with the corrected `fromString` and `addSubtask`: no
      lines is an empty manager; otherwise the trimmed first line must be
      the header, and the rest are loaded in order. A loaded store has every
      epic's list resolving. */
  function Load(lines: seq<string>): (r: Result<Store, LoadError>)
    ensures lines == [] ==> r == Ok(EmptyStore)
    ensures lines != [] && Trim(lines[0]) != Header ==> r == Err(BadHeader)
    ensures r.Ok? ==> LinksResolve(r.value)
    ensures r.Err? && r.error.BadRow? ==> 1 <= r.error.line < |lines|
  {
    if lines == [] then Ok(EmptyStore)
    else if Trim(lines[0]) != Header then Err(BadHeader)
    else
      FromStringBareEpics();
      AddItemKeepsLinks();
      LoadRowsKeepLinks(EmptyStore, TrimAll(lines[1..]), 1, FromString, AddItem);
      LoadRows(EmptyStore, TrimAll(lines[1..]), 1, FromString, AddItem)
  }

  /** `loadFromFile` exactly as written: `fromString` unescapes the title
      and description a second time, and `addSubtask` checks the supplied
      id against the epic id. The same loop, header check and guarantees. */
  function LoadAsWritten(lines: seq<string>): (r: Result<Store, LoadError>)
    ensures lines == [] ==> r == Ok(EmptyStore)
    ensures lines != [] && Trim(lines[0]) != Header ==> r == Err(BadHeader)
    ensures r.Ok? ==> LinksResolve(r.value)
    ensures r.Err? && r.error.BadRow? ==> 1 <= r.error.line < |lines|
  {
    if lines == [] then Ok(EmptyStore)
    else if Trim(lines[0]) != Header then Err(BadHeader)
    else
      FromStringAsWrittenBareEpics();
      AddItemAsWrittenKeepsLinks();
      LoadRowsKeepLinks(EmptyStore, TrimAll(lines[1..]), 1, FromStringAsWritten, AddItemAsWritten);
      LoadRows(EmptyStore, TrimAll(lines[1..]), 1, FromStringAsWritten, AddItemAsWritten)
  }

  /** Loading lines in two stretches is loading them in one. */
  lemma {:induction false} LoadRowsAppend(s: Store, a: seq<string>, b: seq<string>, first: nat, read: Reader, add: Adder)
    ensures LoadRows(s, a, first, read, add).Err? ==> LoadRows(s, a + b, first, read, add) == LoadRows(s, a, first, read, add)
    ensures LoadRows(s, a, first, read, add).Ok? ==>
      LoadRows(s, a + b, first, read, add) == LoadRows(LoadRows(s, a, first, read, add).value, b, first + |a|, read, add)
    decreases |a|
  {
    if a != [] {
      assert (a + b)[0] == a[0] && (a + b)[1..] == a[1..] + b;
      match LoadLine(s, a[0], read, add)
      case Skipped => LoadRowsAppend(s, a[1..], b, first + 1, read, add);
      case Refused =>
      case Loaded(s1) => LoadRowsAppend(s1, a[1..], b, first + 1, read, add);
    } else {
      assert a + b == b;
    }
  }

  /** A row decoder whose epics come without a subtask list, as
      `fromString` builds them. */
  ghost predicate BareEpics(read: Reader) {
    forall line: string :: read(line).Ok? && read(line).value.EpicItem? ==> read(line).value.epic.subtaskIds == []
  }

  lemma FromStringBareEpics()
    ensures BareEpics(FromString)
  {
    forall line: string | FromString(line).Ok? && FromString(line).value.EpicItem?
      ensures FromString(line).value.epic.subtaskIds == []
    {
    }
  }

  lemma FromStringAsWrittenBareEpics()
    ensures BareEpics(FromStringAsWritten)
  {
    forall line: string | FromStringAsWritten(line).Ok? && FromStringAsWritten(line).value.EpicItem?
      ensures FromStringAsWritten(line).value.epic.subtaskIds == []
    {
    }
  }

  /** An add that, given bare epics, keeps every epic's list resolving. */
  ghost predicate KeepsLinks(add: Adder) {
    forall s: Store, x: Item {:trigger add(s, x)} :: LinksResolve(s) && (x.EpicItem? ==> x.epic.subtaskIds == []) && add(s, x).Some? ==>
      LinksResolve(add(s, x).value)
  }

  lemma AddItemKeepsLinks()
    ensures KeepsLinks(AddItem)
  {
    forall s: Store, x: Item | LinksResolve(s) && (x.EpicItem? ==> x.epic.subtaskIds == []) && AddItem(s, x).Some?
      ensures LinksResolve(AddItem(s, x).value)
    {
      match x
      case TaskItem(t) =>
      case EpicItem(e) => AddBareEpicKeepsLinks(s, e);
      case SubtaskItem(st) =>
        var a := AddSubtask(s, st);
        PutAndLinkedKeepsLinks(s, st, AssignedId(s.nextId, st.base.id), a);
    }
  }

  lemma AddItemAsWrittenKeepsLinks()
    ensures KeepsLinks(AddItemAsWritten)
  {
    forall s: Store, x: Item | LinksResolve(s) && (x.EpicItem? ==> x.epic.subtaskIds == []) && AddItemAsWritten(s, x).Some?
      ensures LinksResolve(AddItemAsWritten(s, x).value)
    {
      match x
      case TaskItem(t) =>
      case EpicItem(e) => AddBareEpicKeepsLinks(s, e);
      case SubtaskItem(st) =>
        var a := AddSubtaskAsWritten(s, st);
        PutAndLinkedKeepsLinks(s, st, AssignedId(s.nextId, st.base.id), a);
    }
  }

  lemma AddBareEpicKeepsLinks(s: Store, e: Epic)
    requires LinksResolve(s) && e.subtaskIds == []
    ensures LinksResolve(AddEpic(s, e).store)
  {
    var a := AddEpic(s, e);
    assert forall k :: k in a.store.epics && k != a.id ==> k in s.epics && a.store.epics[k] == s.epics[k];
  }

  /** A successful put and link keeps every list resolving. */
  lemma PutAndLinkedKeepsLinks(s: Store, st: Subtask, id: int, a: Attempt)
    requires LinksResolve(s) && PutAndLinked(s, st, id, a)
    ensures a.result.Ok? ==> LinksResolve(a.store)
  {
    if a.result.Ok? {
      forall k | k in a.store.epics
        ensures ListResolves(a.store.epics[k].subtaskIds, a.store.subtasks)
      {
        if k != st.epicId {
          assert a.store.epics[k] == s.epics[k];
        }
      }
    }
  }

  /** The loop keeps every epic's list resolving. */
  lemma {:induction false} LoadRowsKeepLinks(s: Store, lines: seq<string>, first: nat, read: Reader, add: Adder)
    requires LinksResolve(s) && BareEpics(read) && KeepsLinks(add)
    ensures LoadRows(s, lines, first, read, add).Ok? ==> LinksResolve(LoadRows(s, lines, first, read, add).value)
    decreases |lines|
  {
    if lines != [] {
      match LoadLine(s, lines[0], read, add)
      case Skipped => LoadRowsKeepLinks(s, lines[1..], first + 1, read, add);
      case Refused =>
      case Loaded(s1) =>
        assert add(s, read(lines[0]).value) == Some(s1);
        LoadRowsKeepLinks(s1, lines[1..], first + 1, read, add);
    }
  }

  // ---------------------------------------------------------------------------
  // Saving
  // ---------------------------------------------------------------------------

  /** `order` lists every key of `m` exactly once: an iteration order. */
  predicate Enumerates<T>(order: seq<int>, m: map<int, T>) {
    NoDuplicates(order) && Covers(order, m)
  }

  /** `order` names exactly the keys of `m`. */
  predicate Covers<T>(order: seq<int>, m: map<int, T>) {
    && (forall i :: 0 <= i < |order| ==> order[i] in m)
    && (forall k :: k in m ==> k in order)
  }

  /** One row per entity, as `write` renders it. */
  function Rows(items: seq<Item>, write: Item -> string): (r: seq<string>)
    ensures |r| == |items| && forall i :: 0 <= i < |items| ==> r[i] == write(items[i])
  {
    seq(|items|, i requires 0 <= i < |items| => write(items[i]))
  }

  function TaskItems(s: Store, order: seq<int>): (r: seq<Item>)
    requires forall i :: 0 <= i < |order| ==> order[i] in s.tasks
    ensures |r| == |order| && forall i :: 0 <= i < |order| ==> r[i] == TaskItem(s.tasks[order[i]])
  {
    seq(|order|, i requires 0 <= i < |order| => TaskItem(s.tasks[order[i]]))
  }

  function EpicItems(s: Store, order: seq<int>): (r: seq<Item>)
    requires forall i :: 0 <= i < |order| ==> order[i] in s.epics
    ensures |r| == |order| && forall i :: 0 <= i < |order| ==> r[i] == EpicItem(s.epics[order[i]])
  {
    seq(|order|, i requires 0 <= i < |order| => EpicItem(s.epics[order[i]]))
  }

  function SubtaskItems(s: Store, order: seq<int>): (r: seq<Item>)
    requires forall i :: 0 <= i < |order| ==> order[i] in s.subtasks
    ensures |r| == |order| && forall i :: 0 <= i < |order| ==> r[i] == SubtaskItem(s.subtasks[order[i]])
  {
    seq(|order|, i requires 0 <= i < |order| => SubtaskItem(s.subtasks[order[i]]))
  }

  /** `save()`: the header, then a row per task, per epic, per subtask, each
      group in its map's iteration order. */
  function Save(s: Store, taskOrder: seq<int>, epicOrder: seq<int>, subtaskOrder: seq<int>): (r: seq<string>)
    requires Enumerates(taskOrder, s.tasks) && Enumerates(epicOrder, s.epics)
    requires Enumerates(subtaskOrder, s.subtasks)
    ensures |r| == 1 + |s.tasks| + |s.epics| + |s.subtasks|
    ensures r[0] == Header
  {
    EnumerationSize(taskOrder, s.tasks);
    EnumerationSize(epicOrder, s.epics);
    EnumerationSize(subtaskOrder, s.subtasks);
    [Header] + Rows(TaskItems(s, taskOrder), ToRow) + Rows(EpicItems(s, epicOrder), ToRow)
      + Rows(SubtaskItems(s, subtaskOrder), ToRow)
  }

  /** `getAllTasks`, `getAllEpics` and `getAllSubtasks`: the values of a map
      in an iteration order list every stored entity, and no more entries
      than there are. */
  lemma ListsEveryEntity(s: Store, taskOrder: seq<int>, epicOrder: seq<int>, subtaskOrder: seq<int>)
    requires Enumerates(taskOrder, s.tasks) && Enumerates(epicOrder, s.epics)
    requires Enumerates(subtaskOrder, s.subtasks)
    ensures |TaskItems(s, taskOrder)| == |s.tasks| && |EpicItems(s, epicOrder)| == |s.epics|
    ensures |SubtaskItems(s, subtaskOrder)| == |s.subtasks|
    ensures forall k :: k in s.tasks ==> TaskItem(s.tasks[k]) in TaskItems(s, taskOrder)
    ensures forall k :: k in s.epics ==> EpicItem(s.epics[k]) in EpicItems(s, epicOrder)
    ensures forall k :: k in s.subtasks ==> SubtaskItem(s.subtasks[k]) in SubtaskItems(s, subtaskOrder)
  {
    EnumerationSize(taskOrder, s.tasks);
    EnumerationSize(epicOrder, s.epics);
    EnumerationSize(subtaskOrder, s.subtasks);
    forall k | k in s.tasks
      ensures TaskItem(s.tasks[k]) in TaskItems(s, taskOrder)
    {
      var i :| 0 <= i < |taskOrder| && taskOrder[i] == k;
      assert TaskItems(s, taskOrder)[i] == TaskItem(s.tasks[k]);
    }
    forall k | k in s.epics
      ensures EpicItem(s.epics[k]) in EpicItems(s, epicOrder)
    {
      var i :| 0 <= i < |epicOrder| && epicOrder[i] == k;
      assert EpicItems(s, epicOrder)[i] == EpicItem(s.epics[k]);
    }
    forall k | k in s.subtasks
      ensures SubtaskItem(s.subtasks[k]) in SubtaskItems(s, subtaskOrder)
    {
      var i :| 0 <= i < |subtaskOrder| && subtaskOrder[i] == k;
      assert SubtaskItems(s, subtaskOrder)[i] == SubtaskItem(s.subtasks[k]);
    }
  }

  /** An iteration order is as long as the map is large. */
  lemma EnumerationSize<T>(order: seq<int>, m: map<int, T>)
    requires Enumerates(order, m)
    ensures |order| == |m|
  {
    var keys := set i | 0 <= i < |order| :: order[i];
    forall k | k in m
      ensures k in keys
    {
      var i :| 0 <= i < |order| && order[i] == k;
    }
    assert keys == m.Keys;
    DistinctSize(order);
  }

  lemma {:induction false} DistinctSize(order: seq<int>)
    requires NoDuplicates(order)
    ensures |set i | 0 <= i < |order| :: order[i]| == |order|
    decreases |order|
  {
    if order != [] {
      var last := |order| - 1;
      var init := order[..last];
      DistinctSize(init);
      var a := set i | 0 <= i < |init| :: init[i];
      var b := set i | 0 <= i < |order| :: order[i];
      assert b == a + {order[last]};
      assert order[last] !in a;
    }
  }


  /** `String.join` puts the first part first and ends with the last part,
      or with the comma before an empty last part. */
  lemma {:induction false} JoinEnds(parts: seq<string>)
    requires |parts| >= 2 && parts[0] != []
    ensures JoinComma(parts) != [] && JoinComma(parts)[0] == parts[0][0]
    ensures var j := JoinComma(parts); var last := parts[|parts| - 1];
      j[|j| - 1] == (if last == [] then ',' else last[|last| - 1])
    decreases |parts|
  {
    var tail := JoinComma(parts[1..]);
    assert JoinComma(parts) == parts[0] + "," + tail;
    if |parts| == 2 {
      assert tail == parts[1];
    } else if parts[1] != [] {
      JoinEnds(parts[1..]);
    } else {
      assert JoinComma(parts[1..]) == parts[1] + "," + JoinComma(parts[2..]);
      var rest := parts[2..];
      if |rest| == 1 {
        assert JoinComma(rest) == rest[0];
      } else {
        JoinEndsTail(rest);
      }
      assert parts[|parts| - 1] == rest[|rest| - 1];
    }
  }

  /** The end of a join of at least two parts, whatever the first part. */
  lemma {:induction false} JoinEndsTail(parts: seq<string>)
    requires |parts| >= 2
    ensures var j := JoinComma(parts); var last := parts[|parts| - 1];
      j != [] && j[|j| - 1] == (if last == [] then ',' else last[|last| - 1])
    decreases |parts|
  {
    var tail := JoinComma(parts[1..]);
    assert JoinComma(parts) == parts[0] + "," + tail;
    if |parts| == 2 {
      assert tail == parts[1];
    } else {
      JoinEndsTail(parts[1..]);
    }
  }


  /** A row neither starts nor ends with a blank, so trimming keeps it. */
  lemma RowIsTrimmed(x: Item)
    ensures ToRow(x) != [] && Trim(ToRow(x)) == ToRow(x)
  {
    var fields := RowFields(x);
    OuterFieldsNotBlank(x);
    JoinEnds(fields);
    TrimOfTrimmed(ToRow(x));
  }

  /** The first field (the id) starts with a sign or digit, and the last
      (the epic id) is empty or ends with a digit. */
  lemma OuterFieldsNotBlank(x: Item)
    ensures var f := RowFields(x); var last := f[RowWidth - 1];
      && f[0] != [] && !TrimBlank(f[0][0])
      && (last != [] ==> !TrimBlank(last[|last| - 1]))
  {
    var f := RowFields(x);
    assert f[0] == IntToString(BaseOf(x).id);
    assert f[RowWidth - 1] == EpicColumn(x);
  }

  /** A row is never blank: it holds seven commas. */
  lemma RowNotEmpty(x: Item)
    ensures ToRow(x) != []
  {
    var fields := RowFields(x);
    assert JoinComma(fields) == fields[0] + "," + JoinComma(fields[1..]);
  }

  /** The title and description as they come back. */
  function Cleaned(t: Task): (r: Task)
    ensures r.id == t.id && r.status == t.status && r.duration == t.duration && r.startTime == t.startTime
    ensures r.title == Sanitize(t.title) && r.description == Sanitize(t.description)
  {
    t.(title := Sanitize(t.title), description := Sanitize(t.description))
  }

  /** Everything reloading needs of a stored entity: a positive id (so the
      adds keep it), numbers that fit their columns, and a subtask that does
      not name itself as its epic. */
  predicate Reloadable(x: Item) {
    IdOf(x) > 0 && RowRepresentable(x) && (x.SubtaskItem? ==> x.subtask.epicId != IdOf(x))
  }

  /** What a row keeps of the text of a task. */
  type Cleaner = Task -> Task

  /** An entity as it comes back from its row when its text goes through
      `clean`; an epic comes back without its list and end time, which the
      file does not hold. */
  function Recleaned(x: Item, clean: Cleaner): Item {
    match x
    case TaskItem(t) => TaskItem(clean(t))
    case EpicItem(e) => EpicItem(Epic(clean(e.base), [], None))
    case SubtaskItem(st) => SubtaskItem(st.(base := clean(st.base)))
  }

  /** A row encoder and decoder that round-trip every reloadable entity up
      to `clean`: its row is not blank and decodes as the entity with its
      text cleaned. */
  ghost predicate RoundTrips(write: Item -> string, read: Reader, clean: Cleaner) {
    forall x :: Reloadable(x) ==> write(x) != [] && read(write(x)) == Ok(Recleaned(x, clean))
  }

  /** A cleaning that leaves the id alone. */
  ghost predicate KeepsIds(clean: Cleaner) {
    forall t :: clean(t).id == t.id
  }

  lemma CleanedKeepsIds()
    ensures KeepsIds(Cleaned)
  {
  }

  /** The codec's normal form is the entity with `Cleaned` text. */
  lemma NormalizedIsCleaned(x: Item)
    ensures Normalized(x) == Recleaned(x, Cleaned)
  {
  }

  /** `toString` and the corrected `fromString` are such a pair, up to
      sanitizing the title and description. */
  lemma RowCodecRoundTrips()
    ensures RoundTrips(ToRow, FromString, Cleaned)
  {
    forall x | Reloadable(x)
      ensures ToRow(x) != [] && FromString(ToRow(x)) == Ok(Recleaned(x, Cleaned))
    {
      RowNotEmpty(x);
      RowRoundTrip(x);
      NormalizedIsCleaned(x);
    }
  }

  /** `toString` and the `fromString` of the source are not: a title `"a"`
      comes back as `a`. */
  lemma RowCodecAsWrittenFails()
    ensures !RoundTrips(ToRow, FromStringAsWritten, Cleaned)
  {
    var t := Task("\"a\"", "", 1, New, None, None);
    assert Reloadable(TaskItem(t));
    AsWrittenMisreads(t);
    NormalizedIsCleaned(TaskItem(t));
  }

  lemma AsWrittenMisreads(t: Task)
    requires t.title == "\"a\"" && RowRepresentable(TaskItem(t))
    ensures FromStringAsWritten(ToRow(TaskItem(t))) != Ok(Normalized(TaskItem(t)))
  {
    AsWrittenLosesQuotes(t);
    QuotedTitleIsClean();
    assert BaseOf(Normalized(TaskItem(t))).title == "\"a\"";
  }

  // ---------------------------------------------------------------------------
  // The adds, as reloading uses them
  // ---------------------------------------------------------------------------

  /** What adding a task with a positive id does to a store whose keys
      match the ids and whose lists resolve. */
  predicate TaskStep(s: Store, t: Task, r: Option<Store>) {
    && r.Some? && KeysMatchIds(r.value) && LinksResolve(r.value)
    && r.value.tasks == s.tasks[t.id := t]
    && r.value.epics == s.epics && r.value.subtasks == s.subtasks
  }

  /** What adding an epic with a positive id and an empty list does. */
  predicate EpicStep(s: Store, e: Epic, r: Option<Store>) {
    && r.Some? && KeysMatchIds(r.value) && LinksResolve(r.value)
    && r.value.epics == s.epics[e.base.id := e]
    && r.value.tasks == s.tasks && r.value.subtasks == s.subtasks
  }

  /** What adding a subtask with a positive id that does not name itself
      does: it is stored under its id and, when its epic is loaded, goes on
      the end of that epic's list, whose status is recomputed. */
  predicate SubtaskStep(s: Store, st: Subtask, r: Option<Store>) {
    && r.Some? && KeysMatchIds(r.value) && LinksResolve(r.value)
    && r.value.subtasks == s.subtasks[st.base.id := st]
    && r.value.tasks == s.tasks
    && r.value.epics.Keys == s.epics.Keys
    && forall k :: k in s.epics ==>
         && r.value.epics[k].subtaskIds == s.epics[k].subtaskIds + (if k == st.epicId then [st.base.id] else [])
         && r.value.epics[k].base == s.epics[k].base.(status := r.value.epics[k].base.status)
         && r.value.epics[k].endTime == s.epics[k].endTime
  }

  /** An add that behaves like the manager's `addTask`, `addEpic` and
      `addSubtask` on the entities a file holds. */
  ghost predicate AddsLikeManager(add: Adder) {
    && (forall s: Store, t: Task {:trigger add(s, TaskItem(t))} :: KeysMatchIds(s) && LinksResolve(s) && t.id > 0 ==>
          TaskStep(s, t, add(s, TaskItem(t))))
    && (forall s: Store, e: Epic {:trigger add(s, EpicItem(e))} :: KeysMatchIds(s) && LinksResolve(s) && e.base.id > 0 && e.subtaskIds == [] ==>
          EpicStep(s, e, add(s, EpicItem(e))))
    && (forall s: Store, st: Subtask {:trigger add(s, SubtaskItem(st))} :: KeysMatchIds(s) && LinksResolve(s) && st.base.id > 0 && st.epicId != st.base.id ==>
          SubtaskStep(s, st, add(s, SubtaskItem(st))))
  }

  /** The loader's add makes the three steps. */
  lemma AddItemAddsLikeManager()
    ensures AddsLikeManager(AddItem)
  {
    forall s: Store, t: Task | KeysMatchIds(s) && LinksResolve(s) && t.id > 0
      ensures TaskStep(s, t, AddItem(s, TaskItem(t)))
    {
      AddTaskKeeps(s, t);
    }
    forall s: Store, e: Epic | KeysMatchIds(s) && LinksResolve(s) && e.base.id > 0 && e.subtaskIds == []
      ensures EpicStep(s, e, AddItem(s, EpicItem(e)))
    {
      AddEpicKeeps(s, e);
    }
    forall s: Store, st: Subtask | KeysMatchIds(s) && LinksResolve(s) && st.base.id > 0 && st.epicId != st.base.id
      ensures SubtaskStep(s, st, AddItem(s, SubtaskItem(st)))
    {
      AddSubtaskSteps(s, st);
    }
  }

  /** `addTask` of a task with a positive id puts it under that id. */
  lemma AddTaskKeeps(s: Store, t: Task)
    requires KeysMatchIds(s) && LinksResolve(s) && t.id > 0
    ensures TaskStep(s, t, Some(AddTask(s, t).store))
  {
  }

  /** `addEpic` of an epic with a positive id and an empty list puts it
      under that id. */
  lemma AddEpicKeeps(s: Store, e: Epic)
    requires KeysMatchIds(s) && LinksResolve(s) && e.base.id > 0 && e.subtaskIds == []
    ensures EpicStep(s, e, Some(AddEpic(s, e).store))
  {
    var r := AddEpic(s, e).store;
    assert r.epics == s.epics[e.base.id := e];
    forall k | k in r.epics
      ensures ListResolves(r.epics[k].subtaskIds, r.subtasks)
    {
      if k != e.base.id {
        assert r.epics[k] == s.epics[k];
      }
    }
  }

  /** `addSubtask` of a subtask with a positive id that does not name
      itself puts it under that id and on its epic's list. */
  lemma AddSubtaskSteps(s: Store, st: Subtask)
    requires KeysMatchIds(s) && LinksResolve(s) && st.base.id > 0 && st.epicId != st.base.id
    ensures SubtaskStep(s, st, AddSubtaskItem(s, st))
  {
    var a := AddSubtask(s, st);
    PutAndLinkedKeepsLinks(s, st, st.base.id, a);
    assert a.store.subtasks == s.subtasks[st.base.id := st];
    forall k | k in s.epics
      ensures a.store.epics[k].subtaskIds == s.epics[k].subtaskIds + (if k == st.epicId then [st.base.id] else [])
      ensures a.store.epics[k].base == s.epics[k].base.(status := a.store.epics[k].base.status)
      ensures a.store.epics[k].endTime == s.epics[k].endTime
    {
      if k != st.epicId {
        assert a.store.epics[k] == s.epics[k];
      }
    }
  }

  // ---------------------------------------------------------------------------
  // Reloading, row by row
  // ---------------------------------------------------------------------------

  /** A non-blank line that decodes and whose entity the add takes is
      loaded. */
  lemma LineLoads(s: Store, line: string, read: Reader, add: Adder, y: Item, s1: Store)
    requires line != [] && read(line) == Ok(y) && add(s, y) == Some(s1)
    ensures LoadLine(s, line, read, add) == Loaded(s1)
  {
  }

  /** A loaded first line: the rest are loaded into its store. */
  lemma LoadRowsCons(s: Store, lines: seq<string>, first: nat, read: Reader, add: Adder, s1: Store)
    requires lines != [] && LoadLine(s, lines[0], read, add) == Loaded(s1)
    ensures LoadRows(s, lines, first, read, add) == LoadRows(s1, lines[1..], first + 1, read, add)
  {
  }

  lemma RowsSplit(items: seq<Item>, write: Item -> string)
    requires items != []
    ensures Rows(items, write)[0] == write(items[0])
    ensures Rows(items, write)[1..] == Rows(items[1..], write)
  {
  }

  /** Loading the rows of some entities whose first the add takes: the
      first is added, then the rest are loaded into the result. */
  lemma RowsLoadHead(s: Store, items: seq<Item>, first: nat, write: Item -> string, read: Reader, add: Adder, clean: Cleaner, s1: Store)
    requires RoundTrips(write, read, clean)
    requires items != [] && Reloadable(items[0]) && add(s, Recleaned(items[0], clean)) == Some(s1)
    ensures LoadRows(s, Rows(items, write), first, read, add) == LoadRows(s1, Rows(items[1..], write), first + 1, read, add)
  {
    var x := items[0];
    RowsSplit(items, write);
    assert write(x) != [] && read(write(x)) == Ok(Recleaned(x, clean));
    LineLoads(s, write(x), read, add, Recleaned(x, clean), s1);
    LoadRowsCons(s, Rows(items, write), first, read, add, s1);
  }

  /** The entities `order` lists are stored under their ids and can be
      reloaded. */
  predicate TasksReady(tasks: map<int, Task>, order: seq<int>) {
    forall i :: 0 <= i < |order| ==>
      order[i] in tasks && tasks[order[i]].id == order[i] && Reloadable(TaskItem(tasks[order[i]]))
  }

  predicate EpicsReady(epics: map<int, Epic>, order: seq<int>) {
    forall i :: 0 <= i < |order| ==>
      order[i] in epics && epics[order[i]].base.id == order[i] && Reloadable(EpicItem(epics[order[i]]))
  }

  predicate SubtasksReady(subtasks: map<int, Subtask>, order: seq<int>) {
    forall i :: 0 <= i < |order| ==>
      order[i] in subtasks && subtasks[order[i]].base.id == order[i] && Reloadable(SubtaskItem(subtasks[order[i]]))
  }

  lemma TaskItemsTail(src: Store, order: seq<int>)
    requires order != [] && forall i :: 0 <= i < |order| ==> order[i] in src.tasks
    ensures TaskItems(src, order)[1..] == TaskItems(src, order[1..])
  {
  }

  lemma EpicItemsTail(src: Store, order: seq<int>)
    requires order != [] && forall i :: 0 <= i < |order| ==> order[i] in src.epics
    ensures EpicItems(src, order)[1..] == EpicItems(src, order[1..])
  {
  }

  lemma SubtaskItemsTail(src: Store, order: seq<int>)
    requires order != [] && forall i :: 0 <= i < |order| ==> order[i] in src.subtasks
    ensures SubtaskItems(src, order)[1..] == SubtaskItems(src, order[1..])
  {
  }

  /** The first task row of `order` is added; the rest are still ready. */
  lemma TaskRowLoads(s: Store, src: Store, order: seq<int>, first: nat, write: Item -> string, read: Reader, add: Adder, clean: Cleaner)
      returns (s1: Store)
    requires LinksResolve(s) && KeysMatchIds(s) && RoundTrips(write, read, clean) && AddsLikeManager(add) && KeepsIds(clean)
    requires order != [] && TasksReady(src.tasks, order)
    ensures TasksReady(src.tasks, order[1..])
    ensures KeysMatchIds(s1) && LinksResolve(s1)
    ensures s1.tasks == s.tasks[order[0] := clean(src.tasks[order[0]])]
    ensures s1.epics == s.epics && s1.subtasks == s.subtasks
    ensures LoadRows(s, Rows(TaskItems(src, order), write), first, read, add)
      == LoadRows(s1, Rows(TaskItems(src, order[1..]), write), first + 1, read, add)
  {
    assert forall i :: 0 <= i < |order| - 1 ==> order[1..][i] == order[i + 1];
    var t := src.tasks[order[0]];
    var items := TaskItems(src, order);
    TaskItemsTail(src, order);
    var c := clean(t);
    assert c.id == order[0];
    assert TaskStep(s, c, add(s, TaskItem(c)));
    s1 := add(s, TaskItem(c)).value;
    RowsLoadHead(s, items, first, write, read, add, clean, s1);
  }

  /** The first epic row of `order` is added, bare; the rest are still
      ready. */
  lemma EpicRowLoads(s: Store, src: Store, order: seq<int>, first: nat, write: Item -> string, read: Reader, add: Adder, clean: Cleaner)
      returns (s1: Store)
    requires LinksResolve(s) && KeysMatchIds(s) && RoundTrips(write, read, clean) && AddsLikeManager(add) && KeepsIds(clean)
    requires order != [] && EpicsReady(src.epics, order)
    ensures EpicsReady(src.epics, order[1..])
    ensures KeysMatchIds(s1) && LinksResolve(s1)
    ensures s1.epics == s.epics[order[0] := Epic(clean(src.epics[order[0]].base), [], None)]
    ensures s1.tasks == s.tasks && s1.subtasks == s.subtasks
    ensures LoadRows(s, Rows(EpicItems(src, order), write), first, read, add)
      == LoadRows(s1, Rows(EpicItems(src, order[1..]), write), first + 1, read, add)
  {
    assert forall i :: 0 <= i < |order| - 1 ==> order[1..][i] == order[i + 1];
    var e := src.epics[order[0]];
    var items := EpicItems(src, order);
    EpicItemsTail(src, order);
    var c := Epic(clean(e.base), [], None);
    assert c.base.id == order[0];
    assert EpicStep(s, c, add(s, EpicItem(c)));
    s1 := add(s, EpicItem(c)).value;
    RowsLoadHead(s, items, first, write, read, add, clean, s1);
  }

  /** The first subtask row of `order` is added and goes on its epic's
      list; the rest are still ready. */
  lemma SubtaskRowLoads(s: Store, src: Store, order: seq<int>, first: nat, write: Item -> string, read: Reader, add: Adder, clean: Cleaner)
      returns (s1: Store)
    requires LinksResolve(s) && KeysMatchIds(s) && RoundTrips(write, read, clean) && AddsLikeManager(add) && KeepsIds(clean)
    requires order != [] && SubtasksReady(src.subtasks, order)
    ensures SubtasksReady(src.subtasks, order[1..])
    ensures KeysMatchIds(s1) && LinksResolve(s1)
    ensures var st := src.subtasks[order[0]]; s1.subtasks == s.subtasks[order[0] := st.(base := clean(st.base))]
    ensures s1.tasks == s.tasks
    ensures EpicsExtended(s.epics, s1.epics, src.subtasks, [order[0]])
    ensures LoadRows(s, Rows(SubtaskItems(src, order), write), first, read, add)
      == LoadRows(s1, Rows(SubtaskItems(src, order[1..]), write), first + 1, read, add)
  {
    assert forall i :: 0 <= i < |order| - 1 ==> order[1..][i] == order[i + 1];
    var st := src.subtasks[order[0]];
    var items := SubtaskItems(src, order);
    SubtaskItemsTail(src, order);
    var c := st.(base := clean(st.base));
    assert c.base.id == order[0];
    assert SubtaskStep(s, c, add(s, SubtaskItem(c)));
    s1 := add(s, SubtaskItem(c)).value;
    RowsLoadHead(s, items, first, write, read, add, clean, s1);
    SubtaskStepExtends(s, c, s1, src.subtasks, order[0]);
  }

  /** A subtask step extends the epics by that one id. */
  lemma SubtaskStepExtends(s: Store, st: Subtask, s1: Store, subtasks: map<int, Subtask>, id: int)
    requires SubtaskStep(s, st, Some(s1))
    requires id in subtasks && st.base.id == id && st.epicId == subtasks[id].epicId
    ensures EpicsExtended(s.epics, s1.epics, subtasks, [id])
  {
    OwnedBySingle(subtasks, id);
  }

  /** A single id is owned by its subtask's epic alone. */
  lemma OwnedBySingle(subtasks: map<int, Subtask>, id: int)
    requires id in subtasks
    ensures forall k :: OwnedBy(subtasks, [id], k) == if subtasks[id].epicId == k then [id] else []
  {
    assert [id][1..] == [];
  }

  // ---------------------------------------------------------------------------
  // Reloading, group by group
  // ---------------------------------------------------------------------------

  /** Putting the first key's value, then the rest of a map keyed by
      `order`, is putting the whole map at once. */
  lemma OverrideStep<T>(m: map<int, T>, order: seq<int>, c: map<int, T>, c1: map<int, T>)
    requires order != [] && order[0] in c
    requires forall k :: k in c <==> k in order
    requires forall k :: k in c1 <==> k in order[1..]
    requires forall k :: k in c1 ==> c[k] == c1[k]
    ensures m[order[0] := c[order[0]]] + c1 == m + c
  {
    assert order == [order[0]] + order[1..];
    var a := m[order[0] := c[order[0]]] + c1;
    var b := m + c;
    forall k | k in b
      ensures k in a && a[k] == b[k]
    {
    }
    forall k | k in a
      ensures k in b
    {
      if k in c1 {
        var i :| 0 <= i < |order[1..]| && order[1..][i] == k;
        assert order[i + 1] == k;
      }
    }
  }

  /** The tasks of `order`, each cleaned, by id. */
  function CleanedTasks(tasks: map<int, Task>, order: seq<int>, clean: Cleaner): (r: map<int, Task>)
    requires forall i :: 0 <= i < |order| ==> order[i] in tasks
    ensures forall k :: k in r <==> k in order
  {
    map k | k in order :: clean(tasks[k])
  }

  /** The task rows of `order` put every such task, cleaned, under its id. */
  lemma {:induction false} LoadTaskRows(s: Store, src: Store, order: seq<int>, first: nat, write: Item -> string, read: Reader, add: Adder, clean: Cleaner)
      returns (r: Store)
    requires LinksResolve(s) && KeysMatchIds(s) && RoundTrips(write, read, clean) && AddsLikeManager(add) && KeepsIds(clean)
    requires TasksReady(src.tasks, order)
    ensures LoadRows(s, Rows(TaskItems(src, order), write), first, read, add) == Ok(r)
    ensures KeysMatchIds(r) && LinksResolve(r)
    ensures r.tasks == s.tasks + CleanedTasks(src.tasks, order, clean)
    ensures r.epics == s.epics && r.subtasks == s.subtasks
    decreases |order|
  {
    if order == [] {
      assert Rows(TaskItems(src, order), write) == [];
      assert s.tasks + CleanedTasks(src.tasks, order, clean) == s.tasks;
      r := s;
    } else {
      var s1 := TaskRowLoads(s, src, order, first, write, read, add, clean);
      r := LoadTaskRows(s1, src, order[1..], first + 1, write, read, add, clean);
      TasksStep(s.tasks, src.tasks, order, clean);
    }
  }

  lemma TasksStep(m: map<int, Task>, tasks: map<int, Task>, order: seq<int>, clean: Cleaner)
    requires order != [] && forall i :: 0 <= i < |order| ==> order[i] in tasks
    ensures m[order[0] := clean(tasks[order[0]])] + CleanedTasks(tasks, order[1..], clean)
      == m + CleanedTasks(tasks, order, clean)
  {
    OverrideStep(m, order, CleanedTasks(tasks, order, clean), CleanedTasks(tasks, order[1..], clean));
  }

  /** The epics of `order`, each cleaned and with an empty list, by id. */
  function ReadEpics(epics: map<int, Epic>, order: seq<int>, clean: Cleaner): (r: map<int, Epic>)
    requires forall i :: 0 <= i < |order| ==> order[i] in epics
    ensures forall k :: k in r <==> k in order
  {
    map k | k in order :: Epic(clean(epics[k].base), [], None)
  }

  /** The epic rows of `order` put every such epic, cleaned and with an
      empty list, under its id. */
  lemma {:induction false} LoadEpicRows(s: Store, src: Store, order: seq<int>, first: nat, write: Item -> string, read: Reader, add: Adder, clean: Cleaner)
      returns (r: Store)
    requires LinksResolve(s) && KeysMatchIds(s) && RoundTrips(write, read, clean) && AddsLikeManager(add) && KeepsIds(clean)
    requires EpicsReady(src.epics, order)
    ensures LoadRows(s, Rows(EpicItems(src, order), write), first, read, add) == Ok(r)
    ensures KeysMatchIds(r) && LinksResolve(r)
    ensures r.epics == s.epics + ReadEpics(src.epics, order, clean)
    ensures r.tasks == s.tasks && r.subtasks == s.subtasks
    decreases |order|
  {
    if order == [] {
      assert Rows(EpicItems(src, order), write) == [];
      assert s.epics + ReadEpics(src.epics, order, clean) == s.epics;
      r := s;
    } else {
      var s1 := EpicRowLoads(s, src, order, first, write, read, add, clean);
      r := LoadEpicRows(s1, src, order[1..], first + 1, write, read, add, clean);
      EpicsStep(s.epics, src.epics, order, clean);
    }
  }

  lemma EpicsStep(m: map<int, Epic>, epics: map<int, Epic>, order: seq<int>, clean: Cleaner)
    requires order != [] && forall i :: 0 <= i < |order| ==> order[i] in epics
    ensures m[order[0] := Epic(clean(epics[order[0]].base), [], None)] + ReadEpics(epics, order[1..], clean)
      == m + ReadEpics(epics, order, clean)
  {
    OverrideStep(m, order, ReadEpics(epics, order, clean), ReadEpics(epics, order[1..], clean));
  }

  /** The subtasks of `order`, each cleaned, by id. */
  function CleanedSubtasks(subtasks: map<int, Subtask>, order: seq<int>, clean: Cleaner): (r: map<int, Subtask>)
    requires forall i :: 0 <= i < |order| ==> order[i] in subtasks
    ensures forall k :: k in r <==> k in order
  {
    map k | k in order :: subtasks[k].(base := clean(subtasks[k].base))
  }

  /** The ids, in `order`, of the subtasks naming epic `k`. */
  function OwnedBy(subtasks: map<int, Subtask>, order: seq<int>, k: int): seq<int>
    requires forall i :: 0 <= i < |order| ==> order[i] in subtasks
    decreases |order|
  {
    if order == [] then []
    else
      var tail := OwnedBy(subtasks, order[1..], k);
      if subtasks[order[0]].epicId == k then [order[0]] + tail else tail
  }

  /** `OwnedBy` lists exactly the ids of `order` whose subtask names `k`. */
  lemma {:induction false} OwnedByMembers(subtasks: map<int, Subtask>, order: seq<int>, k: int)
    requires forall i :: 0 <= i < |order| ==> order[i] in subtasks
    ensures forall id :: id in OwnedBy(subtasks, order, k) <==> id in order && subtasks[id].epicId == k
    decreases |order|
  {
    if order != [] {
      OwnedByMembers(subtasks, order[1..], k);
      assert forall id :: id in order <==> id == order[0] || id in order[1..];
    }
  }

  /** `after` holds the epics of `before`, each with the ids in `ids` that
      name it appended to its list, and perhaps another status. */
  ghost predicate EpicsExtended(before: map<int, Epic>, after: map<int, Epic>, subtasks: map<int, Subtask>, ids: seq<int>)
    requires forall i :: 0 <= i < |ids| ==> ids[i] in subtasks
  {
    && after.Keys == before.Keys
    && forall k :: k in before ==>
         && after[k].subtaskIds == before[k].subtaskIds + OwnedBy(subtasks, ids, k)
         && after[k].base == before[k].base.(status := after[k].base.status)
         && after[k].endTime == before[k].endTime
  }

  /** Extending by the first id, then by the rest, is extending by all. */
  lemma EpicsExtendedChain(e0: map<int, Epic>, e1: map<int, Epic>, e2: map<int, Epic>, subtasks: map<int, Subtask>, order: seq<int>)
    requires order != [] && forall i :: 0 <= i < |order| ==> order[i] in subtasks
    requires EpicsExtended(e0, e1, subtasks, [order[0]])
    requires EpicsExtended(e1, e2, subtasks, order[1..])
    ensures EpicsExtended(e0, e2, subtasks, order)
  {
    OwnedBySingle(subtasks, order[0]);
    forall k | k in e0
      ensures e2[k].subtaskIds == e0[k].subtaskIds + OwnedBy(subtasks, order, k)
    {
      var head := OwnedBy(subtasks, [order[0]], k);
      var tail := OwnedBy(subtasks, order[1..], k);
      assert OwnedBy(subtasks, order, k) == head + tail;
      assert e0[k].subtaskIds + head + tail == e0[k].subtaskIds + (head + tail);
    }
  }

  /** The subtask rows of `order` put every such subtask, cleaned, under its
      id, and append its id to its epic's list when that epic is loaded; the
      epics keep everything but their lists and statuses. */
  lemma {:induction false} LoadSubtaskRows(s: Store, src: Store, order: seq<int>, first: nat, write: Item -> string, read: Reader, add: Adder, clean: Cleaner)
      returns (r: Store)
    requires LinksResolve(s) && KeysMatchIds(s) && RoundTrips(write, read, clean) && AddsLikeManager(add) && KeepsIds(clean)
    requires SubtasksReady(src.subtasks, order)
    ensures LoadRows(s, Rows(SubtaskItems(src, order), write), first, read, add) == Ok(r)
    ensures KeysMatchIds(r) && LinksResolve(r)
    ensures r.subtasks == s.subtasks + CleanedSubtasks(src.subtasks, order, clean)
    ensures r.tasks == s.tasks
    ensures EpicsExtended(s.epics, r.epics, src.subtasks, order)
    decreases |order|
  {
    if order == [] {
      assert Rows(SubtaskItems(src, order), write) == [];
      assert s.subtasks + CleanedSubtasks(src.subtasks, order, clean) == s.subtasks;
      forall k | k in s.epics
        ensures s.epics[k].subtaskIds + OwnedBy(src.subtasks, order, k) == s.epics[k].subtaskIds
      {
      }
      r := s;
    } else {
      var s1 := SubtaskRowLoads(s, src, order, first, write, read, add, clean);
      r := LoadSubtaskRows(s1, src, order[1..], first + 1, write, read, add, clean);
      SubtasksStep(s.subtasks, src.subtasks, order, clean);
      EpicsExtendedChain(s.epics, s1.epics, r.epics, src.subtasks, order);
    }
  }

  lemma SubtasksStep(m: map<int, Subtask>, subtasks: map<int, Subtask>, order: seq<int>, clean: Cleaner)
    requires order != [] && forall i :: 0 <= i < |order| ==> order[i] in subtasks
    ensures var st := subtasks[order[0]];
      m[order[0] := st.(base := clean(st.base))] + CleanedSubtasks(subtasks, order[1..], clean)
      == m + CleanedSubtasks(subtasks, order, clean)
  {
    OverrideStep(m, order, CleanedSubtasks(subtasks, order, clean), CleanedSubtasks(subtasks, order[1..], clean));
  }

  // ---------------------------------------------------------------------------
  // Saving, then loading
  // ---------------------------------------------------------------------------

  /** Every entity of `s` can go through a file: a positive id, numbers
      that fit their columns, no subtask naming itself as its epic. */
  predicate Writable(s: Store) {
    && (forall k :: k in s.tasks ==> Reloadable(TaskItem(s.tasks[k])))
    && (forall k :: k in s.epics ==> Reloadable(EpicItem(s.epics[k])))
    && (forall k :: k in s.subtasks ==> Reloadable(SubtaskItem(s.subtasks[k])))
  }

  /** Each group of a writable store, in an iteration order, is ready to
      be reloaded. */
  lemma WritableIsReady(s: Store, taskOrder: seq<int>, epicOrder: seq<int>, subtaskOrder: seq<int>)
    requires Enumerates(taskOrder, s.tasks) && Enumerates(epicOrder, s.epics) && Enumerates(subtaskOrder, s.subtasks)
    requires KeysMatchIds(s) && Writable(s)
    ensures TasksReady(s.tasks, taskOrder) && EpicsReady(s.epics, epicOrder) && SubtasksReady(s.subtasks, subtaskOrder)
  {
  }

  /** The three groups of rows, loaded one after the other into an empty
      manager: every task and subtask is back under its id with its text
      cleaned, and every epic is back, bare, then extended by the subtasks
      that name it. */
  lemma ReloadGroups(s: Store, taskOrder: seq<int>, epicOrder: seq<int>, subtaskOrder: seq<int>,
                     write: Item -> string, read: Reader, add: Adder, clean: Cleaner)
      returns (r: Store)
    requires TasksReady(s.tasks, taskOrder) && EpicsReady(s.epics, epicOrder) && SubtasksReady(s.subtasks, subtaskOrder)
    requires RoundTrips(write, read, clean) && AddsLikeManager(add) && KeepsIds(clean)
    ensures var rows := Rows(TaskItems(s, taskOrder), write) + Rows(EpicItems(s, epicOrder), write)
                          + Rows(SubtaskItems(s, subtaskOrder), write);
      LoadRows(EmptyStore, rows, 1, read, add) == Ok(r)
    ensures r.tasks == CleanedTasks(s.tasks, taskOrder, clean)
    ensures r.subtasks == CleanedSubtasks(s.subtasks, subtaskOrder, clean)
    ensures EpicsExtended(ReadEpics(s.epics, epicOrder, clean), r.epics, s.subtasks, subtaskOrder)
  {
    var s1, s2;
    var n2: nat, n3: nat := 1 + |taskOrder|, 1 + |taskOrder| + |epicOrder|;
    s1, s2, r := ReloadPhases(s, taskOrder, epicOrder, subtaskOrder, n2, n3, write, read, add, clean);
    LoadThree(EmptyStore, Rows(TaskItems(s, taskOrder), write), Rows(EpicItems(s, epicOrder), write),
              Rows(SubtaskItems(s, subtaskOrder), write), n2, n3, read, add, s1, s2);
  }

  /** The three groups, each loaded on top of the one before; the epic
      rows start at line `n2` and the subtask rows at line `n3`. */
  lemma ReloadPhases(s: Store, taskOrder: seq<int>, epicOrder: seq<int>, subtaskOrder: seq<int>, n2: nat, n3: nat,
                     write: Item -> string, read: Reader, add: Adder, clean: Cleaner)
      returns (s1: Store, s2: Store, r: Store)
    requires TasksReady(s.tasks, taskOrder) && EpicsReady(s.epics, epicOrder) && SubtasksReady(s.subtasks, subtaskOrder)
    requires RoundTrips(write, read, clean) && AddsLikeManager(add) && KeepsIds(clean)
    requires n2 == 1 + |taskOrder| && n3 == n2 + |epicOrder|
    ensures LoadRows(EmptyStore, Rows(TaskItems(s, taskOrder), write), 1, read, add) == Ok(s1)
    ensures LoadRows(s1, Rows(EpicItems(s, epicOrder), write), n2, read, add) == Ok(s2)
    ensures LoadRows(s2, Rows(SubtaskItems(s, subtaskOrder), write), n3, read, add) == Ok(r)
    ensures r.tasks == CleanedTasks(s.tasks, taskOrder, clean)
    ensures r.subtasks == CleanedSubtasks(s.subtasks, subtaskOrder, clean)
    ensures EpicsExtended(ReadEpics(s.epics, epicOrder, clean), r.epics, s.subtasks, subtaskOrder)
  {
    EmptyStoreIsValid();
    s1 := LoadTaskRows(EmptyStore, s, taskOrder, 1, write, read, add, clean);
    s2 := LoadEpicRows(s1, s, epicOrder, n2, write, read, add, clean);
    r := LoadSubtaskRows(s2, s, subtaskOrder, n3, write, read, add, clean);
    EmptyOverride(CleanedTasks(s.tasks, taskOrder, clean));
    EmptyOverride(ReadEpics(s.epics, epicOrder, clean));
    EmptyOverride(CleanedSubtasks(s.subtasks, subtaskOrder, clean));
  }

  lemma EmptyOverride<T>(m: map<int, T>)
    ensures map[] + m == m
  {
  }

  /** Three stretches of lines that each load are loaded in one go. */
  lemma LoadThree(s: Store, a: seq<string>, b: seq<string>, c: seq<string>, n2: nat, n3: nat, read: Reader, add: Adder, s1: Store, s2: Store)
    requires n2 == 1 + |a| && n3 == n2 + |b|
    requires LoadRows(s, a, 1, read, add) == Ok(s1)
    requires LoadRows(s1, b, n2, read, add) == Ok(s2)
    ensures LoadRows(s, a + b + c, 1, read, add) == LoadRows(s2, c, n3, read, add)
  {
    LoadRowsAppend(s1, b, c, n2, read, add);
    LoadRowsAppend(s, a, b + c, 1, read, add);
    assert a + b + c == a + (b + c);
  }

  /** Every task of `tasks`, cleaned, under its key. */
  function AllCleaned(tasks: map<int, Task>, clean: Cleaner): (r: map<int, Task>)
    ensures r.Keys == tasks.Keys
  {
    map k | k in tasks :: clean(tasks[k])
  }

  /** Every subtask of `subtasks`, its text cleaned, under its key. */
  function AllSubtasksCleaned(subtasks: map<int, Subtask>, clean: Cleaner): (r: map<int, Subtask>)
    ensures r.Keys == subtasks.Keys
  {
    map k | k in subtasks :: subtasks[k].(base := clean(subtasks[k].base))
  }

  /** The reloaded tasks do not depend on the iteration order `save`
      used. */
  lemma TasksInAnyOrder(tasks: map<int, Task>, order: seq<int>, clean: Cleaner)
    requires Covers(order, tasks)
    ensures CleanedTasks(tasks, order, clean) == AllCleaned(tasks, clean)
  {
    var a := CleanedTasks(tasks, order, clean);
    var b := AllCleaned(tasks, clean);
    forall k
      ensures k in a <==> k in b
    {
      if k in a {
        var i :| 0 <= i < |order| && order[i] == k;
      }
    }
    assert a.Keys == b.Keys;
  }

  /** Nor do the reloaded subtasks. */
  lemma SubtasksInAnyOrder(subtasks: map<int, Subtask>, order: seq<int>, clean: Cleaner)
    requires Covers(order, subtasks)
    ensures CleanedSubtasks(subtasks, order, clean) == AllSubtasksCleaned(subtasks, clean)
  {
    var a := CleanedSubtasks(subtasks, order, clean);
    var b := AllSubtasksCleaned(subtasks, clean);
    forall k
      ensures k in a <==> k in b
    {
      if k in a {
        var i :| 0 <= i < |order| && order[i] == k;
      }
    }
    assert a.Keys == b.Keys;
  }

  /** Nor do the reloaded epics' ids. */
  lemma EpicsInAnyOrder(epics: map<int, Epic>, order: seq<int>, clean: Cleaner)
    requires Covers(order, epics)
    ensures ReadEpics(epics, order, clean).Keys == epics.Keys
    ensures forall k :: k in epics ==> ReadEpics(epics, order, clean)[k] == Epic(clean(epics[k].base), [], None)
  {
    var a := ReadEpics(epics, order, clean);
    forall k
      ensures k in a <==> k in epics
    {
      if k in a {
        var i :| 0 <= i < |order| && order[i] == k;
      }
    }
  }

  /** The header line survives the trim `loadFromFile` applies. */
  lemma HeaderIsTrimmed()
    ensures Trim(Header) == Header
  {
    TrimOfTrimmed(Header);
  }

  /** Every row `toString` writes survives the trim. */
  lemma RowsAreTrimmed(items: seq<Item>)
    ensures TrimAll(Rows(items, ToRow)) == Rows(items, ToRow)
  {
    var rows := Rows(items, ToRow);
    forall i | 0 <= i < |rows|
      ensures Trim(rows[i]) == rows[i]
    {
      RowIsTrimmed(items[i]);
    }
  }

  lemma TrimAllAppend(a: seq<string>, b: seq<string>)
    ensures TrimAll(a + b) == TrimAll(a) + TrimAll(b)
  {
  }

  /** Lines that start with the header load as their trimmed rows. */
  lemma LoadAfterHeader(lines: seq<string>)
    requires lines != [] && lines[0] == Header
    ensures Load(lines) == LoadRows(EmptyStore, TrimAll(lines[1..]), 1, FromString, AddItem)
  {
    HeaderIsTrimmed();
  }

  lemma LoadAsWrittenAfterHeader(lines: seq<string>)
    requires lines != [] && lines[0] == Header
    ensures LoadAsWritten(lines) == LoadRows(EmptyStore, TrimAll(lines[1..]), 1, FromStringAsWritten, AddItemAsWritten)
  {
    HeaderIsTrimmed();
  }

  /** `save` writes the header, then the task, epic and subtask rows. */
  lemma SaveLines(s: Store, taskOrder: seq<int>, epicOrder: seq<int>, subtaskOrder: seq<int>)
    requires Enumerates(taskOrder, s.tasks) && Enumerates(epicOrder, s.epics) && Enumerates(subtaskOrder, s.subtasks)
    ensures var lines := Save(s, taskOrder, epicOrder, subtaskOrder);
      lines[1..] == Rows(TaskItems(s, taskOrder), ToRow) + Rows(EpicItems(s, epicOrder), ToRow)
                      + Rows(SubtaskItems(s, subtaskOrder), ToRow)
  {
    var a, b, c := Rows(TaskItems(s, taskOrder), ToRow), Rows(EpicItems(s, epicOrder), ToRow),
                   Rows(SubtaskItems(s, subtaskOrder), ToRow);
    var lines := Save(s, taskOrder, epicOrder, subtaskOrder);
    assert lines == [Header] + a + b + c;
    DropHead(Header, a, b, c);
  }

  /** Dropping the first line of a header followed by three groups leaves the groups. */
  lemma DropHead<T>(h: T, a: seq<T>, b: seq<T>, c: seq<T>)
    ensures ([h] + a + b + c)[1..] == a + b + c
  {
    assert [h] + a + b + c == [h] + (a + b + c);
  }

  /** Three groups of written rows survive the trim together. */
  lemma GroupsAreTrimmed(a: seq<Item>, b: seq<Item>, c: seq<Item>)
    ensures var rows := Rows(a, ToRow) + Rows(b, ToRow) + Rows(c, ToRow);
      TrimAll(rows) == rows
  {
    RowsAreTrimmed(a);
    RowsAreTrimmed(b);
    RowsAreTrimmed(c);
    TrimAllAppend(Rows(a, ToRow), Rows(b, ToRow));
    TrimAllAppend(Rows(a, ToRow) + Rows(b, ToRow), Rows(c, ToRow));
  }

  /** What `loadFromFile` makes of the lines `save` writes: the rows after
      the header, loaded into an empty manager. */
  lemma LoadOfSave(s: Store, taskOrder: seq<int>, epicOrder: seq<int>, subtaskOrder: seq<int>)
    requires Enumerates(taskOrder, s.tasks) && Enumerates(epicOrder, s.epics) && Enumerates(subtaskOrder, s.subtasks)
    ensures var rows := Rows(TaskItems(s, taskOrder), ToRow) + Rows(EpicItems(s, epicOrder), ToRow)
                          + Rows(SubtaskItems(s, subtaskOrder), ToRow);
      Load(Save(s, taskOrder, epicOrder, subtaskOrder)) == LoadRows(EmptyStore, rows, 1, FromString, AddItem)
  {
    var lines := Save(s, taskOrder, epicOrder, subtaskOrder);
    SaveLines(s, taskOrder, epicOrder, subtaskOrder);
    LoadAfterHeader(lines);
    GroupsAreTrimmed(TaskItems(s, taskOrder), EpicItems(s, epicOrder), SubtaskItems(s, subtaskOrder));
  }

  /** `r` is what a reload makes of `s`: every task and subtask is back
      under its id with its title and description sanitized, and every
      epic is back with its title and description sanitized, no end time
      (the file does not hold one), a status the subtasks may have
      changed, and a list holding exactly the subtasks that name it, in
      the order they were written. */
  ghost predicate ReloadOf(r: Store, s: Store, subtaskOrder: seq<int>)
    requires forall i :: 0 <= i < |subtaskOrder| ==> subtaskOrder[i] in s.subtasks
  {
    && r.tasks == AllCleaned(s.tasks, Cleaned)
    && r.subtasks == AllSubtasksCleaned(s.subtasks, Cleaned)
    && r.epics.Keys == s.epics.Keys
    && forall k :: k in s.epics ==>
         && r.epics[k].base == Cleaned(s.epics[k].base).(status := r.epics[k].base.status)
         && r.epics[k].endTime == None
         && r.epics[k].subtaskIds == OwnedBy(s.subtasks, subtaskOrder, k)
  }

  /** The file `save` writes loads, group by group, into an empty
      manager. */
  lemma SavedGroupsLoad(s: Store, taskOrder: seq<int>, epicOrder: seq<int>, subtaskOrder: seq<int>)
      returns (r: Store)
    requires Enumerates(taskOrder, s.tasks) && Enumerates(epicOrder, s.epics) && Enumerates(subtaskOrder, s.subtasks)
    requires TasksReady(s.tasks, taskOrder) && EpicsReady(s.epics, epicOrder) && SubtasksReady(s.subtasks, subtaskOrder)
    ensures Load(Save(s, taskOrder, epicOrder, subtaskOrder)) == Ok(r)
    ensures r.tasks == CleanedTasks(s.tasks, taskOrder, Cleaned)
    ensures r.subtasks == CleanedSubtasks(s.subtasks, subtaskOrder, Cleaned)
    ensures EpicsExtended(ReadEpics(s.epics, epicOrder, Cleaned), r.epics, s.subtasks, subtaskOrder)
  {
    LoadOfSave(s, taskOrder, epicOrder, subtaskOrder);
    RowCodecRoundTrips();
    AddItemAddsLikeManager();
    CleanedKeepsIds();
    r := ReloadGroups(s, taskOrder, epicOrder, subtaskOrder, ToRow, FromString, AddItem, Cleaned);
  }

  /** The groups, loaded in the orders `save` used, are a reload whatever
      those orders were. */
  lemma GroupsAreReload(r: Store, s: Store, taskOrder: seq<int>, epicOrder: seq<int>, subtaskOrder: seq<int>)
    requires Covers(taskOrder, s.tasks) && Covers(epicOrder, s.epics) && Covers(subtaskOrder, s.subtasks)
    requires r.tasks == CleanedTasks(s.tasks, taskOrder, Cleaned)
    requires r.subtasks == CleanedSubtasks(s.subtasks, subtaskOrder, Cleaned)
    requires EpicsExtended(ReadEpics(s.epics, epicOrder, Cleaned), r.epics, s.subtasks, subtaskOrder)
    ensures ReloadOf(r, s, subtaskOrder)
  {
    TasksInAnyOrder(s.tasks, taskOrder, Cleaned);
    SubtasksInAnyOrder(s.subtasks, subtaskOrder, Cleaned);
    EpicsReloaded(r.epics, s, epicOrder, subtaskOrder);
  }

  /** The epics read back, then extended by the subtask rows, are the
      saved epics with exactly their subtasks listed. */
  lemma EpicsReloaded(epics: map<int, Epic>, s: Store, epicOrder: seq<int>, subtaskOrder: seq<int>)
    requires Covers(epicOrder, s.epics) && Covers(subtaskOrder, s.subtasks)
    requires EpicsExtended(ReadEpics(s.epics, epicOrder, Cleaned), epics, s.subtasks, subtaskOrder)
    ensures epics.Keys == s.epics.Keys
    ensures forall k :: k in s.epics ==>
      && epics[k].base == Cleaned(s.epics[k].base).(status := epics[k].base.status)
      && epics[k].endTime == None
      && epics[k].subtaskIds == OwnedBy(s.subtasks, subtaskOrder, k)
  {
    EpicsInAnyOrder(s.epics, epicOrder, Cleaned);
  }

  /** Saving a manager and loading the file back gives a reload of it. */
  lemma SaveThenLoad(s: Store, taskOrder: seq<int>, epicOrder: seq<int>, subtaskOrder: seq<int>)
    requires Enumerates(taskOrder, s.tasks) && Enumerates(epicOrder, s.epics) && Enumerates(subtaskOrder, s.subtasks)
    requires KeysMatchIds(s) && Writable(s)
    ensures var r := Load(Save(s, taskOrder, epicOrder, subtaskOrder));
      r.Ok? && ReloadOf(r.value, s, subtaskOrder)
  {
    WritableIsReady(s, taskOrder, epicOrder, subtaskOrder);
    var r := SavedGroupsLoad(s, taskOrder, epicOrder, subtaskOrder);
    GroupsAreReload(r, s, taskOrder, epicOrder, subtaskOrder);
  }

  /** After a reload, an epic lists a subtask exactly when the subtask
      names it. */
  lemma ReloadedListsAreOwners(s: Store, taskOrder: seq<int>, epicOrder: seq<int>, subtaskOrder: seq<int>, k: int, id: int)
    requires Enumerates(taskOrder, s.tasks) && Enumerates(epicOrder, s.epics) && Enumerates(subtaskOrder, s.subtasks)
    requires KeysMatchIds(s) && Writable(s) && k in s.epics
    ensures var r := Load(Save(s, taskOrder, epicOrder, subtaskOrder));
      r.Ok? && k in r.value.epics
      && (id in r.value.epics[k].subtaskIds <==> id in s.subtasks && s.subtasks[id].epicId == k)
  {
    SaveThenLoad(s, taskOrder, epicOrder, subtaskOrder);
    OwnedByMembers(s.subtasks, subtaskOrder, k);
  }

  // ---------------------------------------------------------------------------
  // The loader as written, against the corrected one
  // ---------------------------------------------------------------------------

  /** A file of the header and one row that `toString` wrote is, for either
      loader, that row read and added to an empty manager. */
  lemma OneRowFile(x: Item)
    ensures Load([Header, ToRow(x)]) == LoadRows(EmptyStore, [ToRow(x)], 1, FromString, AddItem)
    ensures LoadAsWritten([Header, ToRow(x)]) ==
      LoadRows(EmptyStore, [ToRow(x)], 1, FromStringAsWritten, AddItemAsWritten)
  {
    OneRowFileCorrected(x);
    OneRowFileAsWritten(x);
  }

  lemma OneRowFileCorrected(x: Item)
    ensures Load([Header, ToRow(x)]) == LoadRows(EmptyStore, [ToRow(x)], 1, FromString, AddItem)
  {
    var lines := [Header, ToRow(x)];
    LoadAfterHeader(lines);
    OneRowTrimmed(x);
  }

  lemma OneRowFileAsWritten(x: Item)
    ensures LoadAsWritten([Header, ToRow(x)]) ==
      LoadRows(EmptyStore, [ToRow(x)], 1, FromStringAsWritten, AddItemAsWritten)
  {
    var lines := [Header, ToRow(x)];
    LoadAsWrittenAfterHeader(lines);
    OneRowTrimmed(x);
  }

  /** The rows after the header of a one-row file, trimmed, are that row. */
  lemma OneRowTrimmed(x: Item)
    ensures TrimAll([Header, ToRow(x)][1..]) == [ToRow(x)]
  {
    RowIsTrimmed(x);
    assert [Header, ToRow(x)][1..] == [ToRow(x)];
  }

  /** One non-blank line: the load ends with the store the add leaves, or
      refuses line 1. */
  lemma OneRow(line: string, read: Reader, add: Adder)
    requires line != []
    ensures LoadRows(EmptyStore, [line], 1, read, add) ==
      if read(line).Err? || add(EmptyStore, read(line).value).None? then Err(BadRow(1))
      else Ok(add(EmptyStore, read(line).value).value)
  {
    assert [line][1..] == [];
  }

  /** Both loaders on the one-row file of `x`: each is the row decoded by
      its `fromString` and added by its adds to an empty manager. */
  lemma OneRowLoads(x: Item)
    requires RowRepresentable(x)
    ensures Load([Header, ToRow(x)]) ==
      if AddItem(EmptyStore, Normalized(x)).None? then Err(BadRow(1))
      else Ok(AddItem(EmptyStore, Normalized(x)).value)
    ensures var y := Rebuilt(x, Unescape(Sanitize(BaseOf(x).title)), Unescape(Sanitize(BaseOf(x).description)));
      LoadAsWritten([Header, ToRow(x)]) ==
        if AddItemAsWritten(EmptyStore, y).None? then Err(BadRow(1))
        else Ok(AddItemAsWritten(EmptyStore, y).value)
  {
    OneRowLoadsCorrected(x);
    OneRowLoadsAsWritten(x);
  }

  lemma OneRowLoadsCorrected(x: Item)
    requires RowRepresentable(x)
    ensures Load([Header, ToRow(x)]) ==
      if AddItem(EmptyStore, Normalized(x)).None? then Err(BadRow(1))
      else Ok(AddItem(EmptyStore, Normalized(x)).value)
  {
    OneRowFileCorrected(x);
    RowNotEmpty(x);
    OneRow(ToRow(x), FromString, AddItem);
    RowRoundTrip(x);
  }

  lemma OneRowLoadsAsWritten(x: Item)
    requires RowRepresentable(x)
    ensures var y := Rebuilt(x, Unescape(Sanitize(BaseOf(x).title)), Unescape(Sanitize(BaseOf(x).description)));
      LoadAsWritten([Header, ToRow(x)]) ==
        if AddItemAsWritten(EmptyStore, y).None? then Err(BadRow(1))
        else Ok(AddItemAsWritten(EmptyStore, y).value)
  {
    OneRowFileAsWritten(x);
    RowNotEmpty(x);
    OneRow(ToRow(x), FromStringAsWritten, AddItemAsWritten);
    AsWrittenRowRoundTrip(x);
  }

  /** A task titled `"a"`, quotes included, comes back from its file with
      the quotes through the corrected loader and as `a` through the loader
      as written. */
  lemma LoadAsWrittenLosesQuotes()
    ensures var lines := [Header, ToRow(TaskItem(Task("\"a\"", "", 1, New, None, None)))];
      && Load(lines).Ok? && 1 in Load(lines).value.tasks
      && Load(lines).value.tasks[1].title == "\"a\""
      && LoadAsWritten(lines).Ok? && 1 in LoadAsWritten(lines).value.tasks
      && LoadAsWritten(lines).value.tasks[1].title == "a"
  {
    var t := Task("\"a\"", "", 1, New, None, None);
    OneRowLoads(TaskItem(t));
    QuotedTitleFacts();
  }

  /** A fresh subtask (id 0) of epic 0, whatever its texts: the corrected
      loader stores it as subtask 1 of epic 0; the loader as written refuses
      the row, because the supplied id 0 equals the epic id. */
  lemma LoadAsWrittenRefusesSubtaskOfEpicZero(title: string, description: string)
    ensures var lines := [Header, ToRow(SubtaskItem(NewSubtask(title, description, New, 0)))];
      && Load(lines).Ok? && 1 in Load(lines).value.subtasks
      && Load(lines).value.subtasks[1].epicId == 0
      && LoadAsWritten(lines) == Err(BadRow(1))
  {
    var x := SubtaskItem(NewSubtask(title, description, New, 0));
    LoadStoresSubtaskOfEpicZero(x);
    RowOfEpicZeroRefusedAsWritten(x);
  }

  lemma LoadStoresSubtaskOfEpicZero(x: Item)
    requires RowRepresentable(x)
    requires x.SubtaskItem? && x.subtask.base.id == 0 && x.subtask.epicId == 0
    ensures var l := Load([Header, ToRow(x)]);
      l.Ok? && 1 in l.value.subtasks && l.value.subtasks[1].epicId == 0
  {
    OneRowLoadsCorrected(x);
    FreshSubtaskOfEpicZeroAdds(Normalized(x).subtask);
  }

  lemma RowOfEpicZeroRefusedAsWritten(x: Item)
    requires RowRepresentable(x)
    requires x.SubtaskItem? && x.subtask.base.id == 0 && x.subtask.epicId == 0
    ensures LoadAsWritten([Header, ToRow(x)]) == Err(BadRow(1))
  {
    OneRowLoadsAsWritten(x);
    var y := Rebuilt(x, Unescape(Sanitize(BaseOf(x).title)), Unescape(Sanitize(BaseOf(x).description)));
    assert y.subtask.base.id == 0 && y.subtask.epicId == 0;
  }

  /** A fresh subtask of epic 1, whatever its texts: the corrected loader
      refuses the row, because the subtask would get id 1; the loader as
      written loads it as subtask 1 of epic 1, its own epic. */
  lemma LoadAsWrittenStoresOwnEpic(title: string, description: string)
    ensures var lines := [Header, ToRow(SubtaskItem(NewSubtask(title, description, New, 1)))];
      && Load(lines) == Err(BadRow(1))
      && LoadAsWritten(lines).Ok? && 1 in LoadAsWritten(lines).value.subtasks
      && LoadAsWritten(lines).value.subtasks[1].epicId == 1
      && !NoSelfOwned(LoadAsWritten(lines).value)
  {
    var x := SubtaskItem(NewSubtask(title, description, New, 1));
    LoadRefusesOwnEpic(x);
    RowLoadsAsOwnEpicAsWritten(x);
  }

  lemma LoadRefusesOwnEpic(x: Item)
    requires RowRepresentable(x)
    requires x.SubtaskItem? && x.subtask.base.id == 0 && x.subtask.epicId == 1
    ensures Load([Header, ToRow(x)]) == Err(BadRow(1))
  {
    OneRowLoadsCorrected(x);
    FreshSubtaskOfEpicOneRefused(Normalized(x).subtask);
  }

  lemma RowLoadsAsOwnEpicAsWritten(x: Item)
    requires RowRepresentable(x)
    requires x.SubtaskItem? && x.subtask.base.id == 0 && x.subtask.epicId == 1
    ensures var l := LoadAsWritten([Header, ToRow(x)]);
      && l.Ok? && 1 in l.value.subtasks && l.value.subtasks[1].epicId == 1
      && !NoSelfOwned(l.value)
  {
    OneRowLoadsAsWritten(x);
    var y := Rebuilt(x, Unescape(Sanitize(BaseOf(x).title)), Unescape(Sanitize(BaseOf(x).description)));
    FreshSubtaskOfEpicOneAddedAsWritten(y.subtask);
  }

  /** The corrected add gives a fresh subtask of epic 0 the id 1. */
  lemma FreshSubtaskOfEpicZeroAdds(st: Subtask)
    requires st.base.id == 0 && st.epicId == 0
    ensures var r := AddItem(EmptyStore, SubtaskItem(st));
      r.Some? && 1 in r.value.subtasks && r.value.subtasks[1].epicId == 0
  {
    var a := AddSubtask(EmptyStore, st);
    assert a.result == Ok(1) && a.store.subtasks[1].epicId == 0;
    assert AddSubtaskItem(EmptyStore, st) == Some(a.store);
  }

  /** The corrected add refuses a fresh subtask of epic 1: it would get id 1. */
  lemma FreshSubtaskOfEpicOneRefused(st: Subtask)
    requires st.base.id == 0 && st.epicId == 1
    ensures AddItem(EmptyStore, SubtaskItem(st)) == None
  {
    assert AssignedId(EmptyStore.nextId, 0) == 1;
  }

  /** The add as written stores a fresh subtask of epic 1 as subtask 1. */
  lemma FreshSubtaskOfEpicOneAddedAsWritten(st: Subtask)
    requires st.base.id == 0 && st.epicId == 1
    ensures var r := AddItemAsWritten(EmptyStore, SubtaskItem(st));
      && r.Some? && 1 in r.value.subtasks && r.value.subtasks[1].epicId == 1
      && !NoSelfOwned(r.value)
  {
    var a := AddSubtaskAsWritten(EmptyStore, st);
    assert a.result == Ok(1) && a.store.subtasks[1].epicId == 1;
    assert AddSubtaskItemAsWritten(EmptyStore, st) == Some(a.store);
  }
}
