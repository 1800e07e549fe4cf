/**
 * The blog form's validation schema: a rule table per field, each rule a
 * check and the literal message reported when the check fails. Every failing
 * rule of a field is reported, in the table's order.
 */
module Schema {
  import TagStrip
  import EcmaTrim

  /** The payload the form submits; each `char` is one BMP character, that is one UTF-16 code unit. */
  datatype BlogFormData = BlogFormData(title: string, content: string, image: string, author: string)

  datatype Field = Title | Content | Image | Author

  /** The values an untouched form holds. */
  const Defaults := BlogFormData("", "", "", "")

  const AllFields: set<Field> := {Title, Content, Image, Author}

  lemma EveryFieldListed()
    ensures forall f :: f in AllFields
  {
    forall f ensures f in AllFields {
      match f
      case Title =>
      case Content =>
      case Image =>
      case Author =>
    }
  }

  /** The kinds of check the schema uses. */
  datatype Check =
    | Required          // a non-empty string
    | MinLength(n: nat) // at least n code units
    | MaxLength(n: nat) // at most n code units
    | IsNotEmpty        // some visible text remains once tags are stripped and the rest trimmed

  datatype Rule = Rule(check: Check, message: string)

  /** The value of one field of the payload. */
  function Value(p: BlogFormData, f: Field): string
  {
    match f
    case Title => p.title
    case Content => p.content
    case Image => p.image
    case Author => p.author
  }

  /**
   * The rule table, in declaration order, with the messages exactly as the form
   * reports them. Every field is required: its first rule is the required
   * check, and every rule has a message to show.
   */
  function Rules(f: Field): (rules: seq<Rule>)
    ensures rules != [] && rules[0].check == Required
    ensures forall i :: 0 <= i < |rules| ==> rules[i].message != ""
  {
    match f
    case Title => [
      Rule(Required, "title is required"),
      Rule(MinLength(30), "Minimun 30 word are required in title"),
      Rule(MaxLength(100), "Maximum 100 word are required in title")]
    case Author => [Rule(Required, "title is required")]
    case Image => [Rule(Required, "Blog photo is required")]
    case Content => [
      Rule(Required, "content is required"),
      Rule(MinLength(100), "Minimun 100 word are required in title"),
      Rule(IsNotEmpty, "content is required")]
  }

  /** The text the `is-not-empty` test measures: "" for the empty value, otherwise the stripped, trimmed value. */
  function VisibleText(v: string): (t: string)
    ensures |t| <= |v|
    ensures t == "" <==> EcmaTrim.AllWhiteSpace(TagStrip.Strip(v))
  {
    EcmaTrim.TrimEmptyIff(TagStrip.Strip(v));
    if v == "" then "" else EcmaTrim.Trim(TagStrip.Strip(v))
  }

  /**
   * Whether `v` passes check `c`. Only absent values skip the length checks,
   * so the empty string fails a positive minimum as well as the required check;
   * and a value with visible text is never empty.
   */
  predicate Holds(c: Check, v: string)
    ensures Holds(c, v) && (c.IsNotEmpty? || (c.MinLength? && c.n > 0)) ==> v != ""
  {
    match c
    case Required => v != ""
    case MinLength(n) => |v| >= n
    case MaxLength(n) => |v| <= n
    case IsNotEmpty => |VisibleText(v)| > 0
  }

  /** Rule `i` of `rules` exists and `v` fails it. */
  predicate FailsAt(rules: seq<Rule>, v: string, i: int)
  {
    0 <= i < |rules| && !Holds(rules[i].check, v)
  }

  /** The messages of the rules in `rules` that `v` fails, in order. */
  function Failures(rules: seq<Rule>, v: string): (msgs: seq<string>)
    ensures |msgs| <= |rules|
    ensures msgs == [] <==> forall i :: !FailsAt(rules, v, i)
  {
    if rules == [] then []
    else
      var rest := Failures(rules[1..], v);
      assert forall i :: 1 <= i ==> (FailsAt(rules, v, i) <==> FailsAt(rules[1..], v, i - 1));
      assert forall j :: 0 <= j ==> (FailsAt(rules[1..], v, j) <==> FailsAt(rules, v, j + 1));
      assert FailsAt(rules, v, 0) <==> !Holds(rules[0].check, v);
      if Holds(rules[0].check, v) then rest else [rules[0].message] + rest
  }

  /** The messages reported are exactly those of the rules that `v` fails. */
  lemma {:induction false} FailuresMessages(rules: seq<Rule>, v: string)
    ensures forall m :: m in Failures(rules, v) <==> exists i :: FailsAt(rules, v, i) && rules[i].message == m
  {
    if rules != [] {
      var tail := rules[1..];
      FailuresMessages(tail, v);
      var msgs, rest := Failures(rules, v), Failures(tail, v);
      assert msgs == if Holds(rules[0].check, v) then rest else [rules[0].message] + rest;
      forall m | m in msgs ensures exists i :: FailsAt(rules, v, i) && rules[i].message == m {
        if m in rest {
          var j :| FailsAt(tail, v, j) && tail[j].message == m;
          assert FailsAt(rules, v, j + 1) && rules[j + 1].message == m;
        } else {
          assert FailsAt(rules, v, 0) && rules[0].message == m;
        }
      }
      forall m, i | FailsAt(rules, v, i) && rules[i].message == m ensures m in msgs {
        if i > 0 {
          assert FailsAt(tail, v, i - 1) && tail[i - 1].message == m;
        }
      }
    }
  }

  function FieldErrors(p: BlogFormData, f: Field): seq<string>
  {
    Failures(Rules(f), Value(p, f))
  }

  /** Each field's messages are exactly those of the rules its value fails. */
  lemma FieldMessages(p: BlogFormData)
    ensures forall f, m :: m in FieldErrors(p, f) <==>
      exists i :: FailsAt(Rules(f), Value(p, f), i) && Rules(f)[i].message == m
  {
    forall f {
      FailuresMessages(Rules(f), Value(p, f));
    }
  }

  /** What one rule contributes: its message when `v` fails it. */
  function Report(r: Rule, v: string): seq<string>
  {
    if Holds(r.check, v) then [] else [r.message]
  }

  lemma FailuresOfOne(a: Rule, v: string)
    ensures Failures([a], v) == Report(a, v)
  {
    assert [a][1..] == [];
  }

  lemma FailuresOfThree(a: Rule, b: Rule, c: Rule, v: string)
    ensures Failures([a, b, c], v) == Report(a, v) + Report(b, v) + Report(c, v)
  {
    assert [a, b, c][1..] == [b, c];
    assert [b, c][1..] == [c];
    FailuresOfOne(c, v);
  }

  /** Each field's errors, rule by rule. */
  lemma FieldErrorsByRule(p: BlogFormData, f: Field)
    ensures FieldErrors(p, f) ==
      if |Rules(f)| == 1 then Report(Rules(f)[0], Value(p, f))
      else Report(Rules(f)[0], Value(p, f)) + Report(Rules(f)[1], Value(p, f)) + Report(Rules(f)[2], Value(p, f))
  {
    var r := Rules(f);
    if |r| == 1 {
      FailuresOfOne(r[0], Value(p, f));
    } else {
      assert r == [r[0], r[1], r[2]];
      FailuresOfThree(r[0], r[1], r[2], Value(p, f));
    }
  }

  /**
   * The validation result: a field has an entry exactly when its value fails
   * some rule of its table, and the entry holds the message of every rule it
   * fails and no other.
   */
  function Errors(p: BlogFormData): (errs: map<Field, seq<string>>)
    ensures forall f :: f in errs <==> exists i :: FailsAt(Rules(f), Value(p, f), i)
    ensures forall f, m :: f in errs ==>
      (m in errs[f] <==> exists i :: FailsAt(Rules(f), Value(p, f), i) && Rules(f)[i].message == m)
    ensures forall f :: f in errs ==> errs[f] == FieldErrors(p, f)
  {
    var errs := map f | f in AllFields && FieldErrors(p, f) != [] :: FieldErrors(p, f);
    EveryFieldListed();
    FieldMessages(p);
    errs
  }

  /** Submission proceeds only when no field has an error. */
  predicate Passes(p: BlogFormData)
    ensures Passes(p) <==> forall f, i :: !FailsAt(Rules(f), Value(p, f), i)
  {
    var errs := Errors(p);
    assert errs != map[] ==> exists f :: f in errs;
    errs == map[]
  }

  // ---------------------------------------------------------------------------
  // What each field accepts

  lemma TitleAcceptedIff(p: BlogFormData)
    ensures FieldErrors(p, Title) == [] <==> 30 <= |p.title| <= 100
  {
    FieldErrorsByRule(p, Title);
  }

  /** An empty title fails both the required rule and the minimum length. */
  lemma EmptyTitleErrors(p: BlogFormData)
    requires p.title == ""
    ensures FieldErrors(p, Title) == ["title is required", "Minimun 30 word are required in title"]
  {
    FieldErrorsByRule(p, Title);
  }

  /** A title of the wrong length reports the matching length message. */
  lemma TitleLengthMessages(p: BlogFormData)
    ensures |p.title| < 30 <==> "Minimun 30 word are required in title" in FieldErrors(p, Title)
    ensures |p.title| > 100 <==> "Maximum 100 word are required in title" in FieldErrors(p, Title)
  {
    FieldErrorsByRule(p, Title);
  }

  /** The author is accepted iff non-empty; its one message is the title's. */
  lemma AuthorAcceptedIff(p: BlogFormData)
    ensures FieldErrors(p, Author) == (if p.author == "" then ["title is required"] else [])
  {
    FieldErrorsByRule(p, Author);
  }

  lemma ImageAcceptedIff(p: BlogFormData)
    ensures FieldErrors(p, Image) == (if p.image == "" then ["Blog photo is required"] else [])
  {
    FieldErrorsByRule(p, Image);
  }

  /**
   * Content is accepted iff it has at least 100 code units and some character
   * survives stripping that is not white space.
   */
  lemma ContentAcceptedIff(p: BlogFormData)
    ensures FieldErrors(p, Content) == [] <==>
      |p.content| >= 100 && !EcmaTrim.AllWhiteSpace(TagStrip.Strip(p.content))
  {
    FieldErrorsByRule(p, Content);
    EcmaTrim.TrimEmptyIff(TagStrip.Strip(p.content));
  }

  /** Which content messages are reported, and when. */
  lemma ContentMessages(p: BlogFormData)
    ensures "Minimun 100 word are required in title" in FieldErrors(p, Content) <==> |p.content| < 100
    ensures "content is required" in FieldErrors(p, Content) <==>
      p.content == "" || EcmaTrim.AllWhiteSpace(TagStrip.Strip(p.content))
  {
    FieldErrorsByRule(p, Content);
  }

  /** Content with no visible text is rejected with "content is required", whatever its length. */
  lemma InvisibleContentRejected(p: BlogFormData)
    requires EcmaTrim.AllWhiteSpace(TagStrip.Strip(p.content))
    ensures "content is required" in FieldErrors(p, Content)
    ensures Content in Errors(p) && !Passes(p)
  {
    FieldErrorsByRule(p, Content);
    EcmaTrim.TrimEmptyIff(TagStrip.Strip(p.content));
  }

  /** `n` copies of `s`. */
  function Repeat(s: string, n: nat): (r: string)
    ensures |r| == n * |s|
  {
    if n == 0 then "" else s + Repeat(s, n - 1)
  }

  /** One empty paragraph leaves its space behind. */
  lemma StripEmptyParagraph(rest: string)
    ensures TagStrip.Strip("<p> </p>" + rest) == " " + TagStrip.Strip(rest)
  {
    var open, close := "<p>", "</p>";
    assert TagStrip.ClosedTag(open);
    assert TagStrip.ClosedTag(close);
    var tail := close + rest;
    assert "<p> </p>" + rest == open + (" " + tail);
    TagStrip.StripClosedTag(open, " " + tail);
    TagStrip.StripPlainPrefix(" ", tail);
    TagStrip.StripClosedTag(close, rest);
  }

  /** Each "<p> </p>" leaves one space behind. */
  lemma {:induction false} StripEmptyParagraphs(n: nat)
    ensures TagStrip.Strip(Repeat("<p> </p>", n)) == Repeat(" ", n)
  {
    if n > 0 {
      StripEmptyParagraph(Repeat("<p> </p>", n - 1));
      StripEmptyParagraphs(n - 1);
    }
  }

  lemma {:induction false} AllSpaces(n: nat)
    ensures EcmaTrim.AllWhiteSpace(Repeat(" ", n))
  {
    if n > 0 {
      AllSpaces(n - 1);
      var r := Repeat(" ", n);
      assert forall k :: 1 <= k < n ==> r[k] == Repeat(" ", n - 1)[k - 1];
    }
  }

  /** Empty paragraphs pass the length rule from 13 copies (104 code units) on, yet are rejected. */
  lemma EmptyParagraphsRejected(p: BlogFormData, n: nat)
    requires n >= 13 && p.content == Repeat("<p> </p>", n)
    ensures |p.content| >= 100
    ensures FieldErrors(p, Content) == ["content is required"]
  {
    StripEmptyParagraphs(n);
    AllSpaces(n);
    EcmaTrim.TrimEmptyIff(Repeat(" ", n));
    FieldErrorsByRule(p, Content);
  }

  // ---------------------------------------------------------------------------
  // The whole payload

  /** The schema passes exactly when every field meets its rules. */
  lemma PassesIff(p: BlogFormData)
    ensures Passes(p) <==>
      && 30 <= |p.title| <= 100
      && p.author != ""
      && p.image != ""
      && |p.content| >= 100
      && !EcmaTrim.AllWhiteSpace(TagStrip.Strip(p.content))
  {
    TitleAcceptedIff(p);
    AuthorAcceptedIff(p);
    ImageAcceptedIff(p);
    ContentAcceptedIff(p);
    if FieldErrors(p, Title) == [] && FieldErrors(p, Author) == []
      && FieldErrors(p, Image) == [] && FieldErrors(p, Content) == []
    {
      forall f ensures FieldErrors(p, f) == [] {
        match f
        case Title =>
        case Author =>
        case Image =>
        case Content =>
      }
    }
  }

  /** The messages of each field of the untouched form. */
  lemma DefaultFieldErrors()
    ensures FieldErrors(Defaults, Title) == ["title is required", "Minimun 30 word are required in title"]
    ensures FieldErrors(Defaults, Author) == ["title is required"]
    ensures FieldErrors(Defaults, Image) == ["Blog photo is required"]
    ensures FieldErrors(Defaults, Content) ==
      ["content is required", "Minimun 100 word are required in title", "content is required"]
  {
    EmptyTitleErrors(Defaults);
    AuthorAcceptedIff(Defaults);
    ImageAcceptedIff(Defaults);
    FieldErrorsByRule(Defaults, Content);
  }

  /** Every field's first rule, the required check, fails on the untouched form. */
  lemma DefaultFailsRequired(f: Field)
    ensures FailsAt(Rules(f), Value(Defaults, f), 0)
  {
    assert Value(Defaults, f) == "";
  }

  lemma DefaultsKeys()
    ensures Errors(Defaults).Keys == AllFields
  {
    var errs := Errors(Defaults);
    forall f ensures f in errs {
      DefaultFailsRequired(f);
    }
    EveryFieldListed();
  }

  /** An untouched form fails on every one of its four fields. */
  lemma DefaultsFailEveryField()
    ensures Errors(Defaults).Keys == AllFields
    ensures Errors(Defaults)[Title] == ["title is required", "Minimun 30 word are required in title"]
    ensures Errors(Defaults)[Author] == ["title is required"]
    ensures Errors(Defaults)[Image] == ["Blog photo is required"]
    ensures Errors(Defaults)[Content] ==
      ["content is required", "Minimun 100 word are required in title", "content is required"]
    ensures !Passes(Defaults)
  {
    DefaultsKeys();
    DefaultFieldErrors();
  }
}
