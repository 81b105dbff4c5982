/** The task record, its two enumerations, the time-line it lives on and the
    in-place mutators the task manager calls on a stored task. */
module Tasks {
  import opened Wrappers

  datatype Priority = Low | Medium | High

  datatype Status = Todo | InProgress | Done | Abandoned

  /** An instant on the local time-line, in nanoseconds from an arbitrary
      epoch (the resolution of a Java LocalDateTime). */
  type Instant = int

  /** A calendar day, counted in days from the same epoch. */
  type Day = int

  const NanosPerDay: int := 86_400_000_000_000

  /** The calendar day an instant falls on. Dafny's division is Euclidean, so
      with a positive divisor it rounds down, also before the epoch. */
  function DayOf(i: Instant): Day {
    i / NanosPerDay
  }

  /** The last representable instant of a day (a date combined with
      LocalTime.MAX): it still belongs to the day, and one nanosecond later
      the next day has begun. */
  function EndOfDay(d: Day): (i: Instant)
    ensures DayOf(i) == d
    ensures DayOf(i + 1) == d + 1
  {
    d * NanosPerDay + (NanosPerDay - 1)
  }

  datatype Task = Task(
    id: string,
    title: string,
    description: string,
    priority: Priority,
    status: Status,
    dueDate: Option<Instant>,
    tags: set<string>,
    completedAt: Option<Instant>)

  /** A freshly constructed task: status TODO, never completed. */
  function NewTask(id: string, title: string, description: string, priority: Priority,
                   dueDate: Option<Instant>, tags: seq<string>): Task
  {
    Task(id, title, description, priority, Todo, dueDate, (set tag | tag in tags), None)
  }

  /** The fields of a task other than its identifier, which never changes. */
  datatype Field = TitleField | DescriptionField | PriorityField | StatusField
                 | DueDateField | TagsField | CompletedAtField

  /** `b` is `a` with at most the fields in `changed` altered; the id is
      always kept. */
  predicate SameOutside(a: Task, b: Task, changed: set<Field>) {
    && a.id == b.id
    && (TitleField !in changed ==> a.title == b.title)
    && (DescriptionField !in changed ==> a.description == b.description)
    && (PriorityField !in changed ==> a.priority == b.priority)
    && (StatusField !in changed ==> a.status == b.status)
    && (DueDateField !in changed ==> a.dueDate == b.dueDate)
    && (TagsField !in changed ==> a.tags == b.tags)
    && (CompletedAtField !in changed ==> a.completedAt == b.completedAt)
  }

  /** Task.markAsDone: the task becomes DONE and is stamped with the clock. */
  function MarkAsDone(t: Task, now: Instant): (r: Task)
    ensures r.status == Done && r.completedAt == Some(now)
    ensures SameOutside(t, r, {StatusField, CompletedAtField})
  {
    t.(status := Done, completedAt := Some(now))
  }

  /** Task.addTag: set insertion, a no-op when the tag is already there. */
  function AddTag(t: Task, tag: string): (r: Task)
    ensures tag in r.tags && r.tags - {tag} == t.tags - {tag}
    ensures tag in t.tags ==> r == t
    ensures SameOutside(t, r, {TagsField})
  {
    t.(tags := t.tags + {tag})
  }

  /** Task.removeTag: removes the tag and reports whether it was present. */
  function RemoveTag(t: Task, tag: string): (r: (bool, Task))
    ensures r.0 <==> tag in t.tags
    ensures tag !in r.1.tags && r.1.tags + {tag} == t.tags + {tag}
    ensures !r.0 ==> r.1 == t
    ensures SameOutside(t, r.1, {TagsField})
  {
    (tag in t.tags, t.(tags := t.tags - {tag}))
  }
}
