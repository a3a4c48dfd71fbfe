/** The add form (src/components/pages/Add.jsx): its fields, the
    validation that fills the error map, and the submit handler that
    builds the new task, hands it to the store and resets the form. */
module AddForm {
  import opened Tasks
  import opened JsStrings
  import opened Store

  /** The keys of the error map. */
  datatype Field = TitleField | DescriptionField | DueDateField

  const TitleRequired := "Название задачи обязательно"
  const DescriptionRequired := "Описание задачи обязательно"
  const DueDateRequired := "Укажите срок выполнения"

  /** The message shown under each field. */
  function Message(f: Field): string
  {
    match f
    case TitleField => TitleRequired
    case DescriptionField => DescriptionRequired
    case DueDateField => DueDateRequired
  }

  /** The rule each field must meet: a title and a description that are
      not empty once trimmed, and a due date. */
  function Fails(f: Field, title: string, description: string, dueDate: string): (b: bool)
    ensures f == TitleField ==> (b <==> IsBlank(title))
    ensures f == DescriptionField ==> (b <==> IsBlank(description))
    ensures f == DueDateField ==> (b <==> dueDate == "")
  {
    match f
    case TitleField => Trim(title) == ""
    case DescriptionField => Trim(description) == ""
    case DueDateField => dueDate == ""
  }

  /** The error map `validateForm` computes: one entry per failing field.
      A whitespace-only title or description counts as missing, and the
      map is empty exactly when all three fields are acceptable. */
  function FormErrors(title: string, description: string, dueDate: string): (errs: map<Field, string>)
    ensures TitleField in errs <==> IsBlank(title)
    ensures DescriptionField in errs <==> IsBlank(description)
    ensures DueDateField in errs <==> dueDate == ""
    ensures forall f :: f in errs ==> errs[f] == Message(f)
    ensures errs == map[] <==> !IsBlank(title) && !IsBlank(description) && dueDate != ""
  {
    var errs := map f | f in {TitleField, DescriptionField, DueDateField} && Fails(f, title, description, dueDate) :: Message(f);
    assert TitleField in errs <==> Fails(TitleField, title, description, dueDate);
    assert DescriptionField in errs <==> Fails(DescriptionField, title, description, dueDate);
    assert DueDateField in errs <==> Fails(DueDateField, title, description, dueDate);
    errs
  }

  /** A map holding exactly the failing fields, each with its message, is
      the error map. */
  lemma ErrorsByField(title: string, description: string, dueDate: string, m: map<Field, string>)
    requires TitleField in m <==> Trim(title) == ""
    requires DescriptionField in m <==> Trim(description) == ""
    requires DueDateField in m <==> dueDate == ""
    requires forall f :: f in m ==> m[f] == Message(f)
    ensures m == FormErrors(title, description, dueDate)
  {
    var errs := FormErrors(title, description, dueDate);
    forall f | true
      ensures f in m <==> f in errs
    {
      match f
      case TitleField =>
      case DescriptionField =>
      case DueDateField =>
    }
  }

  /** The task object `handleSubmit` builds; the id, `Date.now()` in the
      application, is an input. */
  function NewTask(id: int, title: string, description: string, priority: Priority, dueDate: string): Task
  {
    Task(id, Trim(title), Trim(description), priority, dueDate, false, None)
  }

  /** Whatever was typed, the new task carries the given id, priority and
      due date, is open with no completion date, and holds the trimmed
      title and description: each is a stretch of what was typed with no
      whitespace at either end, empty exactly when the field was blank. */
  lemma NewTaskIsTrimmed(id: int, title: string, description: string, priority: Priority, dueDate: string)
    ensures var t := NewTask(id, title, description, priority, dueDate);
            && t.id == id && t.priority == priority && t.dueDate == dueDate
            && !t.completed && t.completionDate == None
            && (t.title == [] <==> IsBlank(title))
            && (t.title != [] ==> !IsWhitespace(t.title[0]) && !IsWhitespace(t.title[|t.title| - 1]))
            && (exists i :: CoreAt(title, t.title, i))
            && (t.description == [] <==> IsBlank(description))
            && (t.description != [] ==> !IsWhitespace(t.description[0]) && !IsWhitespace(t.description[|t.description| - 1]))
            && (exists i :: CoreAt(description, t.description, i))
  {
  }

  /** A task built from a form that passed validation has a non-empty
      title and description with no surrounding whitespace, each the
      trimmed form of what was typed, a due date, the selected priority,
      and is not completed. */
  lemma SubmittedTaskIsClean(id: int, title: string, description: string, priority: Priority, dueDate: string)
    requires FormErrors(title, description, dueDate) == map[]
    ensures var t := NewTask(id, title, description, priority, dueDate);
            && t.id == id && t.priority == priority && t.dueDate == dueDate && t.dueDate != ""
            && t.title != "" && !IsWhitespace(t.title[0]) && !IsWhitespace(t.title[|t.title| - 1])
            && t.description != "" && !IsWhitespace(t.description[0])
            && !IsWhitespace(t.description[|t.description| - 1])
            && (exists i :: CoreAt(title, t.title, i))
            && (exists i :: CoreAt(description, t.description, i))
            && !t.completed && t.completionDate == None
  {
  }

  /** The state of the form. */
  class Form {
    var title: string
    var description: string
    var priority: Priority
    var dueDate: string
    var errors: map<Field, string>

    /** The initial state: empty fields, medium priority, no errors. */
    constructor ()
      ensures title == "" && description == "" && priority == Medium && dueDate == ""
      ensures errors == map[]
    {
      title := "";
      description := "";
      priority := Medium;
      dueDate := "";
      errors := map[];
    }

    /** `validateForm`: collects the errors of the current fields into a
      fresh map, stores it, and reports whether it is empty. */
    method ValidateForm() returns (valid: bool)
      modifies this`errors
      ensures errors == FormErrors(title, description, dueDate)
      ensures valid <==> errors == map[]
    {
      var newErrors: map<Field, string> := map[];
      if Trim(title) == "" {
        newErrors := newErrors[TitleField := TitleRequired];
      }
      assert newErrors.Keys <= {TitleField};
      if Trim(description) == "" {
        newErrors := newErrors[DescriptionField := DescriptionRequired];
      }
      assert newErrors.Keys <= {TitleField, DescriptionField};
      assert TitleField in newErrors <==> Trim(title) == "";
      if dueDate == "" {
        newErrors := newErrors[DueDateField := DueDateRequired];
      }
      ErrorsByField(title, description, dueDate, newErrors);
      errors := newErrors;
      valid := |newErrors| == 0;
    }

    /** `handleSubmit`: when validation fails, only the error map changes;
      otherwise the new task (with id `id`) is appended to the store and
      the form returns to its initial state. */
    method HandleSubmit(store: TaskStore, id: int) returns (added: bool)
      modifies this, store
      ensures added <==> FormErrors(old(title), old(description), old(dueDate)) == map[]
      ensures !added ==>
                && store.tasks == old(store.tasks)
                && title == old(title) && description == old(description)
                && priority == old(priority) && dueDate == old(dueDate)
                && errors == FormErrors(title, description, dueDate)
      ensures added ==>
                && store.tasks == old(store.tasks) + [NewTask(id, old(title), old(description), old(priority), old(dueDate))]
                && title == "" && description == "" && priority == Medium && dueDate == ""
                && errors == map[]
    {
      var valid := ValidateForm();
      if !valid {
        return false;
      }
      var newTask := NewTask(id, title, description, priority, dueDate);
      store.AddTask(newTask);
      title := "";
      description := "";
      priority := Medium;
      dueDate := "";
      errors := map[];
      added := true;
    }
  }
}
