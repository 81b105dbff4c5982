/** TaskManager: the façade the command line calls. Every operation reads
    the store and the environment and returns its answer together with the
    store as it is afterwards. */
module Manager {
  import opened Wrappers
  import opened Tasks
  import opened Environment
  import opened Storage

  /** The exception an enum parser throws, which the manager lets escape. */
  datatype Failure = InvalidArgument

  /** What a mutating operation returns: its answer, the store afterwards, and
      whether the manager itself called the store's save(). Persistence the
      store performs inside its own add, update and delete is not counted. */
  datatype Step<T> = Step(out: T, store: Store, saved: bool)

  /** A due-date argument counts as given when it is neither null nor empty. */
  predicate DateGiven(dueDateStr: Option<string>) {
    dueDateStr.Some? && dueDateStr.value != ""
  }

  /** The id of a stored task is unchanged, every other task is left exactly
      as it was, and the listing order is kept. */
  ghost predicate OnlyTaskChanged(s: Store, r: Store, id: string) {
    && r.order == s.order
    && r.tasks.Keys == s.tasks.Keys
    && forall k :: k in s.tasks && k != id ==> r.tasks[k] == s.tasks[k]
  }

  /** createTask. `freshId` is the identifier the new task generates for
      itself; a null result (Ok(None)) is the soft failure on a bad date. */
  function CreateTask(s: Store, env: Env, freshId: string, title: string, description: string,
                      priorityValue: int, dueDateStr: Option<string>, tags: seq<string>)
    : (r: Step<Result<Option<string>, Failure>>)
    requires Valid(s)
    requires freshId !in s.tasks
    ensures Valid(r.store) && !r.saved
    // an unknown priority escapes before anything else is looked at
    ensures r.out.Err? <==> env.parsePriority(priorityValue).None?
    // a given but unparseable date: null, whatever the rest
    ensures r.out == Ok(None) <==>
              env.parsePriority(priorityValue).Some? && DateGiven(dueDateStr) && env.parseDate(dueDateStr.value).None?
    ensures r.out.Err? || r.out == Ok(None) ==> r.store == s
    ensures r.out.Ok? && r.out.value.Some? ==>
              && r.out.value.value == freshId
              && r.store.order == s.order + [freshId]
              && freshId in r.store.tasks
              && r.store.tasks == s.tasks[freshId := r.store.tasks[freshId]]
              && var t := r.store.tasks[freshId];
                 && t.id == freshId && t.title == title && t.description == description
                 && Some(t.priority) == env.parsePriority(priorityValue)
                 && t.status == Todo && t.completedAt == None
                 && (forall tag :: tag in t.tags <==> tag in tags)
                 && (DateGiven(dueDateStr) ==> t.dueDate == Some(EndOfDay(env.parseDate(dueDateStr.value).value)))
                 && (DateGiven(dueDateStr) ==> Some(DayOf(t.dueDate.value)) == env.parseDate(dueDateStr.value))
                 && (!DateGiven(dueDateStr) ==> t.dueDate == None)
  {
    match env.parsePriority(priorityValue)
    case None => Step(Err(InvalidArgument), s, false)
    case Some(priority) =>
      if DateGiven(dueDateStr) then
        match env.parseDate(dueDateStr.value)
        case None => Step(Ok(None), s, false)
        case Some(day) =>
          var t := NewTask(freshId, title, description, priority, Some(EndOfDay(day)), tags);
          Step(Ok(Some(t.id)), Add(s, t), false)
      else
        var t := NewTask(freshId, title, description, priority, None, tags);
        Step(Ok(Some(t.id)), Add(s, t), false)
  }

  /** listTasks: only one selection is ever applied. The overdue flag wins
      over the status filter, which wins over the priority filter; with none
      of them every task is listed. A filter value the enum parser rejects
      escapes as an error, but only if that filter is the one consulted. */
  function ListTasks(s: Store, env: Env, statusFilter: Option<string>, priorityFilter: Option<int>,
                     showOverdue: bool): (r: Result<seq<Task>, Failure>)
    requires Valid(s)
    ensures showOverdue ==>
              r.Ok? && forall t :: t in r.value <==> t in s.tasks.Values && env.isOverdue(t, env.now)
    ensures !showOverdue && statusFilter.Some? ==>
              match env.parseStatus(statusFilter.value)
              case None => r.Err?
              case Some(st) => r.Ok? && forall t :: t in r.value <==> t in s.tasks.Values && t.status == st
    ensures !showOverdue && statusFilter.None? && priorityFilter.Some? ==>
              match env.parsePriority(priorityFilter.value)
              case None => r.Err?
              case Some(p) => r.Ok? && forall t :: t in r.value <==> t in s.tasks.Values && t.priority == p
    ensures !showOverdue && statusFilter.None? && priorityFilter.None? ==> r == Ok(AllTasks(s))
  {
    if showOverdue then Ok(Filter(AllTasks(s), Overdue, env))
    else if statusFilter.Some? then
      match env.parseStatus(statusFilter.value)
      case None => Err(InvalidArgument)
      case Some(st) => Ok(Filter(AllTasks(s), WithStatus(st), env))
    else if priorityFilter.Some? then
      match env.parsePriority(priorityFilter.value)
      case None => Err(InvalidArgument)
      case Some(p) => Ok(Filter(AllTasks(s), WithPriority(p), env))
    else Ok(AllTasks(s))
  }

  /** The status update Task.setStatus applies, followed by markAsDone when
      the new status is DONE. */
  function WithNewStatus(t: Task, st: Status, now: Instant): Task {
    var t' := t.(status := st);
    if st == Done then MarkAsDone(t', now) else t'
  }

  /** updateTaskStatus: the status is parsed before the task is looked up,
      so an unknown status fails even for an unknown id. */
  function UpdateTaskStatus(s: Store, env: Env, id: string, newStatusValue: string)
    : (r: Step<Result<bool, Failure>>)
    requires Valid(s)
    ensures Valid(r.store)
    ensures r.out.Err? <==> env.parseStatus(newStatusValue).None?
    ensures r.out == Ok(true) <==> env.parseStatus(newStatusValue).Some? && id in s.tasks
    ensures r.saved <==> r.out == Ok(true)
    ensures r.out != Ok(true) ==> r.store == s
    ensures r.out == Ok(true) ==>
              && OnlyTaskChanged(s, r.store, id)
              && var (before, after) := (s.tasks[id], r.store.tasks[id]);
                 && after.status == env.parseStatus(newStatusValue).value
                 && (after.status == Done ==> after.completedAt == Some(env.now))
                 && (after.status != Done ==> after.completedAt == before.completedAt)
                 && SameOutside(before, after, {StatusField, CompletedAtField})
  {
    match env.parseStatus(newStatusValue)
    case None => Step(Err(InvalidArgument), s, false)
    case Some(st) =>
      match Get(s, id)
      case None => Step(Ok(false), s, false)
      case Some(t) => Step(Ok(true), Put(s, WithNewStatus(t, st, env.now)), true)
  }

  /** updateTaskPriority: here the parser's exception is caught and reported
      as false, without touching the store. */
  function UpdateTaskPriority(s: Store, env: Env, id: string, newPriorityValue: int): (r: Step<bool>)
    requires Valid(s)
    ensures Valid(r.store) && !r.saved
    ensures r.out <==> env.parsePriority(newPriorityValue).Some? && id in s.tasks
    ensures !r.out ==> r.store == s
    ensures r.out ==>
              && OnlyTaskChanged(s, r.store, id)
              && Some(r.store.tasks[id].priority) == env.parsePriority(newPriorityValue)
              && SameOutside(s.tasks[id], r.store.tasks[id], {PriorityField})
  {
    match env.parsePriority(newPriorityValue)
    case None => Step(false, s, false)
    case Some(p) =>
      var (ok, s') := Update(s, id, SetPriority(p));
      Step(ok, s', false)
  }

  /** updateTaskDueDate: unlike createTask there is no empty-string escape,
      so an empty string is just another date that does not parse. */
  function UpdateTaskDueDate(s: Store, env: Env, id: string, dueDateStr: string): (r: Step<bool>)
    requires Valid(s)
    ensures Valid(r.store) && !r.saved
    ensures r.out <==> env.parseDate(dueDateStr).Some? && id in s.tasks
    ensures !r.out ==> r.store == s
    ensures r.out ==>
              && OnlyTaskChanged(s, r.store, id)
              && SameOutside(s.tasks[id], r.store.tasks[id], {DueDateField})
              && var due := r.store.tasks[id].dueDate;
                 && due == Some(EndOfDay(env.parseDate(dueDateStr).value))
                 && Some(DayOf(due.value)) == env.parseDate(dueDateStr)
  {
    match env.parseDate(dueDateStr)
    case None => Step(false, s, false)
    case Some(day) =>
      var (ok, s') := Update(s, id, SetDueDate(EndOfDay(day)));
      Step(ok, s', false)
  }

  /** deleteTask: removes the task and its place in the listing order. */
  function DeleteTask(s: Store, id: string): (r: Step<bool>)
    requires Valid(s)
    ensures Valid(r.store) && !r.saved
    ensures r.out <==> id in s.tasks
    ensures id !in r.store.tasks && r.store.tasks.Keys == s.tasks.Keys - {id}
    ensures forall k :: k in r.store.tasks ==> r.store.tasks[k] == s.tasks[k]
    ensures !r.out ==> r.store == s
    // the other tasks keep their places in the listing
    ensures r.out ==> forall k :: 0 <= k < |s.order| && s.order[k] == id ==>
              r.store.order == s.order[..k] + s.order[k + 1..]
  {
    var (ok, s') := Delete(s, id);
    Step(ok, s', false)
  }

  /** getTaskDetails: the task filed under the id, or null. */
  function GetTaskDetails(s: Store, id: string): (r: Option<Task>)
    requires Valid(s)
    ensures r.Some? <==> id in s.tasks
    ensures r.Some? ==> r.value.id == id && r.value in AllTasks(s)
  {
    Get(s, id)
  }

  /** addTagToTask: succeeds, and saves, exactly when the task exists. */
  function AddTagToTask(s: Store, id: string, tag: string): (r: Step<bool>)
    requires Valid(s)
    ensures Valid(r.store)
    ensures r.out <==> id in s.tasks
    ensures r.saved <==> r.out
    ensures !r.out ==> r.store == s
    ensures r.out ==>
              && OnlyTaskChanged(s, r.store, id)
              && r.store.tasks[id].tags == s.tasks[id].tags + {tag}
              && SameOutside(s.tasks[id], r.store.tasks[id], {TagsField})
  {
    match Get(s, id)
    case None => Step(false, s, false)
    case Some(t) => Step(true, Put(s, AddTag(t, tag)), true)
  }

  /** removeTagFromTask: succeeds, and saves, only when the task exists AND
      carried the tag; otherwise nothing changes. */
  function RemoveTagFromTask(s: Store, id: string, tag: string): (r: Step<bool>)
    requires Valid(s)
    ensures Valid(r.store)
    ensures r.out <==> id in s.tasks && tag in s.tasks[id].tags
    ensures r.saved <==> r.out
    ensures !r.out ==> r.store == s
    ensures r.out ==>
              && OnlyTaskChanged(s, r.store, id)
              && r.store.tasks[id].tags == s.tasks[id].tags - {tag}
              && SameOutside(s.tasks[id], r.store.tasks[id], {TagsField})
  {
    match Get(s, id)
    case None => Step(false, s, false)
    case Some(t) =>
      var (removed, t') := RemoveTag(t, tag);
      if removed then Step(true, Put(s, t'), true) else Step(false, s, false)
  }
}
