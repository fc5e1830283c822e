/** The task log: tasks kept one per line in a UTF-8 text file, appended with
    `agregar_tarea` and read back with `ver_tareas`. */
module Tasks {
  import opened Wrappers
  import opened Seqs
  import opened Text

  /** The one error of the task log: a task that is blank once normalised (ValueError). */
  datatype TaskError = BlankTask

  /** `_normalizar_tarea`: every whitespace run, line breaks included, becomes one
      space and the ends are trimmed, so a task always fits on one line. */
  function NormalizeTask(text: string): (r: Result<string, TaskError>)
    ensures r.Ok? <==> !AllSpace(text)
    ensures r.Ok? ==> r.value != [] && Canonical(r.value) && '\n' !in r.value
    ensures r.Ok? ==> r.value == Collapse(text)
  {
    var t := Collapse(text);
    CanonicalHasNoLineBreak(t);
    if t == [] then Err(BlankTask) else Ok(t)
  }

  /** The text a file holds when read: an absent file reads as nothing. */
  function TextOf(file: Option<string>): string
  {
    if file.Some? then file.value else ""
  }

  /** `ver_tareas`: [] for an absent file, otherwise its lines without their "\n". */
  function ViewSpec(file: Option<string>): (r: seq<string>)
    ensures file.None? ==> r == []
    ensures forall k :: 0 <= k < |r| ==> '\n' !in r[k]
    ensures file.Some? ==> file.value == Join(r, "\n") + FinalBreak(file.value)
  {
    if file.None? then []
    else
      LinesJoinBack(file.value);
      Lines(file.value)
  }

  /** A file that only `agregar_tarea` has written: absent, empty, or ending in "\n". */
  predicate WellFormed(file: Option<string>)
  {
    file.Some? ==> file.value == [] || file.value[|file.value| - 1] == '\n'
  }

  /** The file after appending one normalised task and its line break. */
  function AppendSpec(file: Option<string>, task: string): Option<string>
  {
    match NormalizeTask(task)
    case Err(_) => file
    case Ok(t) => Some(TextOf(file) + t + "\n")
  }

  /** Appending a task to a well-formed file adds exactly its normalised text as one
      more line, keeps every earlier line, and keeps the file well-formed; a blank
      task leaves the file alone. */
  lemma AppendThenView(file: Option<string>, task: string)
    requires WellFormed(file)
    ensures AllSpace(task) ==> AppendSpec(file, task) == file
    ensures !AllSpace(task) ==> ViewSpec(AppendSpec(file, task)) == ViewSpec(file) + [Collapse(task)]
    ensures WellFormed(AppendSpec(file, task))
  {
    if !AllSpace(task) {
      var t := NormalizeTask(task).value;
      LinesAppendLine(TextOf(file), t);
      assert ViewSpec(file) == Lines(TextOf(file));
    }
  }

  /** The file after appending every task of `tasks` in order. */
  function AppendAll(file: Option<string>, tasks: seq<string>): Option<string>
    decreases |tasks|
  {
    if tasks == [] then file else AppendSpec(AppendAll(file, tasks[..|tasks| - 1]), tasks[|tasks| - 1])
  }

  /** Appending non-blank tasks t1..tk to a missing file and reading it returns their
      normalised forms in that order, one line each. */
  lemma {:induction false} AppendAllThenView(tasks: seq<string>)
    requires forall k :: 0 <= k < |tasks| ==> !AllSpace(tasks[k])
    ensures WellFormed(AppendAll(None, tasks))
    ensures ViewSpec(AppendAll(None, tasks)) == Map(tasks, Collapse)
    decreases |tasks|
  {
    if tasks != [] {
      var init := tasks[..|tasks| - 1];
      AppendAllThenView(init);
      AppendThenView(AppendAll(None, init), tasks[|tasks| - 1]);
      TakeSnoc(tasks, |tasks| - 1);
      assert tasks == init + [tasks[|tasks| - 1]];
      MapSnoc(init, tasks[|tasks| - 1], Collapse);
    }
  }

  /** The task file: `contents` is None while the file does not exist. */
  class TaskFile {
    var contents: Option<string>

    constructor (initial: Option<string>)
      ensures contents == initial
    {
      contents := initial;
    }

    /** `agregar_tarea`: normalise (ValueError when blank, nothing written), then
        append the task and "\n" after the existing content, creating the file if needed. */
    method Add(task: string) returns (r: Outcome<TaskError>)
      modifies this
      ensures AllSpace(task) ==> r == Fail(BlankTask) && contents == old(contents)
      ensures !AllSpace(task) ==> r == Done && contents == Some(TextOf(old(contents)) + Collapse(task) + "\n")
      ensures contents == AppendSpec(old(contents), task)
    {
      var t := NormalizeTask(task);
      if t.Err? {
        return Fail(t.error);
      }
      contents := Some(TextOf(contents) + t.value + "\n");
      return Done;
    }

    /** `ver_tareas` */
    function View(): (r: seq<string>)
      reads this
      ensures r == ViewSpec(contents)
    {
      if contents.None? then [] else Lines(contents.value)
    }
  }

  /** Two tasks appended to a fresh file read back in order, normalised. */
  method TwoTasks(first: string, second: string) returns (lines: seq<string>)
    requires !AllSpace(first) && !AllSpace(second)
    ensures lines == [Collapse(first), Collapse(second)]
  {
    var f := new TaskFile(None);
    var _ := f.Add(first);
    AppendThenView(None, first);
    var before := f.contents;
    var _ := f.Add(second);
    AppendThenView(before, second);
    lines := f.View();
  }
}
