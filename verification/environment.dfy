/** What the task manager takes from outside its own code: the clock, the
    ISO date parser, the two enum parsers and the overdue tests the task class
    defines. None of these is given a body of our own; every operation takes
    them as one parameter, so each property proved holds for ANY choice. */
module Environment {
  import opened Wrappers
  import opened Tasks

  datatype Env = Env(
    /** The instant the call happens at (LocalDateTime.now()). */
    now: Instant,
    /** LocalDate.parse with ISO_DATE: the day a string names, or None where
        the library throws DateTimeParseException. */
    parseDate: string -> Option<Day>,
    /** TaskPriority.fromValue: None where it throws IllegalArgumentException. */
    parsePriority: int -> Option<Priority>,
    /** TaskStatus.fromValue: None where it throws IllegalArgumentException. */
    parseStatus: string -> Option<Status>,
    /** Task.isOverdue, evaluated at an instant. */
    isOverdue: (Task, Instant) -> bool,
    /** Task.isOverdueByMoreThanDays(n), evaluated at an instant. */
    isOverdueByMoreThanDays: (Task, Instant, int) -> bool)
}
