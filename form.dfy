/**
 * The blog form's stored state and its submit rule. The form holds the four
 * field values and the errors of the last validation pass. Submitting runs
 * the schema; only a passing payload is handed to the store's `addBlog`, whose
 * outcome is a parameter here: on success the form is reset to its defaults,
 * on a thrown failure it keeps the submitted values.
 */
module Form {
  import opened Schema

  /** How the store's `addBlog` call ends. */
  datatype StoreOutcome = Stored | Threw

  datatype Option<T> = None | Some(value: T)

  /** `p` with field `f` replaced by `v`. */
  function With(p: BlogFormData, f: Field, v: string): (q: BlogFormData)
    ensures Value(q, f) == v
    ensures forall g :: g != f ==> Value(q, g) == Value(p, g)
  {
    match f
    case Title => p.(title := v)
    case Content => p.(content := v)
    case Image => p.(image := v)
    case Author => p.(author := v)
  }

  class BlogForm {
    var title: string
    var content: string
    var image: string
    var author: string
    /** Field errors of the last validation pass. */
    var errors: map<Field, seq<string>>

    /** The payload the form would submit now. */
    function Values(): BlogFormData
      reads this
    {
      BlogFormData(title, content, image, author)
    }

    /** A fresh form: every field empty and no errors. */
    constructor ()
      ensures Values() == Defaults && errors == map[]
    {
      title, content, image, author := "", "", "", "";
      errors := map[];
    }

    /**
     * A registered text input (title, author) or the rich-text editor (content)
     * reports a new value for field `f`. No input writes the image: only the
     * file picker does, through SelectImage.
     */
    method Change(f: Field, v: string)
      requires f != Image
      modifies this
      ensures Values() == With(old(Values()), f, v)
      ensures errors == old(errors)
    {
      match f
      case Title => title := v;
      case Content => content := v;
      case Image => assert false;
      case Author => author := v;
    }

    /** The file picker reports its selection; only its first file is kept, and an empty selection changes nothing. */
    method SelectImage(files: seq<string>)
      modifies this
      ensures Values() == if files == [] then old(Values()) else old(Values()).(image := files[0])
      ensures errors == old(errors)
    {
      if files != [] {
        image := files[0];
      }
    }

    /**
     * The submit button: validate; when every field passes, send the payload to
     * the store and reset the form if the store succeeds. `sent` is the payload
     * handed to `addBlog`, or None when validation blocked the call.
     */
    method Submit(outcome: StoreOutcome) returns (sent: Option<BlogFormData>)
      modifies this
      ensures sent == if Passes(old(Values())) then Some(old(Values())) else None
      ensures errors == Errors(old(Values()))
      ensures Values() == if sent.Some? && outcome == Stored then Defaults else old(Values())
    {
      var payload := Values();
      errors := Errors(payload);
      if errors == map[] {
        sent := Some(payload);
        match outcome
        case Stored =>
          title, content, image, author := "", "", "", "";
          errors := map[];
        case Threw =>
      } else {
        sent := None;
      }
    }
  }

  /** An untouched form never reaches the store, whatever the store would do. */
  method SubmitUntouched(outcome: StoreOutcome) returns (sent: Option<BlogFormData>, errs: map<Field, seq<string>>)
    ensures sent == None
    ensures errs.Keys == AllFields
  {
    var form := new BlogForm();
    sent := form.Submit(outcome);
    DefaultsFailEveryField();
    errs := form.errors;
  }

  /**
   * Fill every field of a fresh form with `p` and submit it twice. The store
   * sees `p` on the first submission exactly when `p` passes the schema; after
   * a successful store the form is empty, so the second submission sends
   * nothing, and after a failure it still holds `p` and sends `p` again.
   */
  method FillAndSubmitTwice(p: BlogFormData, outcome: StoreOutcome)
    returns (first: Option<BlogFormData>, second: Option<BlogFormData>, after: BlogFormData)
    ensures first == (if Passes(p) then Some(p) else None)
    ensures after == (if Passes(p) && outcome == Stored then Defaults else p)
    ensures second == (if Passes(p) && outcome == Threw then Some(p) else None)
  {
    var form := new BlogForm();
    form.Change(Title, p.title);
    form.Change(Content, p.content);
    form.SelectImage([p.image]);
    form.Change(Author, p.author);
    assert form.Values() == p;
    first := form.Submit(outcome);
    after := form.Values();
    DefaultsFailEveryField();
    second := form.Submit(outcome);
  }
}
