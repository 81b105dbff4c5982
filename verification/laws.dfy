/** Properties of the task manager that relate several calls. */
module Laws {
  import opened Wrappers
  import opened Tasks
  import opened Environment
  import opened Storage
  import opened Manager

  /** The overdue flag overrides both filters, and a status filter overrides
      the priority filter, even when the overridden value is malformed. */
  lemma ListPrecedence(s: Store, env: Env, statusFilter: Option<string>, priorityFilter: Option<int>)
    requires Valid(s)
    ensures ListTasks(s, env, statusFilter, priorityFilter, true) == ListTasks(s, env, None, None, true)
    ensures statusFilter.Some? ==>
              ListTasks(s, env, statusFilter, priorityFilter, false) == ListTasks(s, env, statusFilter, None, false)
  {
  }

  /** Removing a tag twice: the second call reports false, saves nothing and
      leaves the store as the first call left it. */
  lemma RemoveTagTwice(s: Store, id: string, tag: string)
    requires Valid(s)
    ensures var first := RemoveTagFromTask(s, id, tag);
            var second := RemoveTagFromTask(first.store, id, tag);
            && !second.out && !second.saved && second.store == first.store
  {
  }

  /** Adding a tag twice leaves the same store as adding it once; both
      calls succeed and save when the task exists. */
  lemma AddTagTwice(s: Store, id: string, tag: string)
    requires Valid(s)
    ensures var first := AddTagToTask(s, id, tag);
            var second := AddTagToTask(first.store, id, tag);
            && second.out == first.out && second.store == first.store
  {
  }

  /** Adding a tag the task did not have and removing it again restores the
      store. */
  lemma AddThenRemoveTag(s: Store, id: string, tag: string)
    requires Valid(s) && id in s.tasks && tag !in s.tasks[id].tags
    ensures var added := AddTagToTask(s, id, tag);
            var removed := RemoveTagFromTask(added.store, id, tag);
            removed.out && removed.store == s
  {
    var added := AddTagToTask(s, id, tag);
    var removed := RemoveTagFromTask(added.store, id, tag);
    assert removed.store.tasks[id] == s.tasks[id];
    assert removed.store.tasks == s.tasks;
  }

  /** A created task can be read back under the id createTask returned, and
      is listed last. */
  lemma CreateThenDetails(s: Store, env: Env, freshId: string, title: string, description: string,
                          priorityValue: int, dueDateStr: Option<string>, tags: seq<string>)
    requires Valid(s) && freshId !in s.tasks
    ensures var r := CreateTask(s, env, freshId, title, description, priorityValue, dueDateStr, tags);
            r.out.Ok? && r.out.value.Some? ==>
              && GetTaskDetails(r.store, r.out.value.value).Some?
              && GetTaskDetails(r.store, r.out.value.value).value.title == title
              && AllTasks(r.store) == AllTasks(s) + [r.store.tasks[freshId]]
  {
    var r := CreateTask(s, env, freshId, title, description, priorityValue, dueDateStr, tags);
    if r.out.Ok? && r.out.value.Some? {
      var all := AllTasks(r.store);
      assert |all| == |AllTasks(s)| + 1;
      forall i | 0 <= i < |all| ensures all[i] == (AllTasks(s) + [r.store.tasks[freshId]])[i] {
        if i < |AllTasks(s)| {
          assert s.order[i] in s.tasks;
        }
      }
    }
  }

  /** A task that is deleted is gone: it cannot be read back and a second
      delete reports false. */
  lemma DeleteTwice(s: Store, id: string)
    requires Valid(s)
    ensures var first := DeleteTask(s, id);
            && GetTaskDetails(first.store, id).None?
            && !DeleteTask(first.store, id).out
  {
  }

  /** Deleting the task createTask just added gives back the store as it
      was before, listing order included. */
  lemma CreateThenDelete(s: Store, env: Env, freshId: string, title: string, description: string,
                         priorityValue: int, dueDateStr: Option<string>, tags: seq<string>)
    requires Valid(s) && freshId !in s.tasks
    ensures var r := CreateTask(s, env, freshId, title, description, priorityValue, dueDateStr, tags);
            r.out.Ok? && r.out.value.Some? ==>
              var d := DeleteTask(r.store, r.out.value.value);
              d.out && d.store == s
  {
    var r := CreateTask(s, env, freshId, title, description, priorityValue, dueDateStr, tags);
    if r.out.Ok? && r.out.value.Some? {
      var t := r.store.tasks[freshId];
      assert r.store == Add(s, t);
      AddThenDelete(s, t);
    }
  }

  /** A status set to DONE and then to something else keeps its completion
      stamp: nothing clears `completedAt`. */
  lemma CompletionStampSurvivesReopen(s: Store, env: Env, id: string, done: string, reopen: string)
    requires Valid(s) && id in s.tasks
    requires env.parseStatus(done) == Some(Done)
    requires env.parseStatus(reopen).Some? && env.parseStatus(reopen) != Some(Done)
    ensures var first := UpdateTaskStatus(s, env, id, done);
            var second := UpdateTaskStatus(first.store, env, id, reopen);
            && second.out == Ok(true)
            && second.store.tasks[id].completedAt == Some(env.now)
            && second.store.tasks[id].status == env.parseStatus(reopen).value
  {
  }
}
