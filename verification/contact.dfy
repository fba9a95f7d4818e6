/** The contact-form controller (Terry/script.js:70-215): the five field
    values, one error slot per field (the text of the `<field>Error`
    element), and the submit button with its text and `disabled` flag. */
module Contact {
  import opened Text
  import opened Rules

  /** One text per field: the five inputs' values, or the five error elements' texts. */
  datatype Texts = Texts(name: string, email: string, phone: string, subject: string, message: string)
  {
    function Get(f: Field): string
    {
      match f
      case Name => name
      case Email => email
      case Phone => phone
      case Subject => subject
      case Message => message
    }

    function Set(f: Field, text: string): (r: Texts)
      ensures r.Get(f) == text
      ensures forall g: Field :: g != f ==> r.Get(g) == Get(g)
    {
      match f
      case Name => this.(name := text)
      case Email => this.(email := text)
      case Phone => this.(phone := text)
      case Subject => this.(subject := text)
      case Message => this.(message := text)
    }
  }

  /** Two records agree exactly when they agree on every field. */
  lemma {:induction false} TextsByField(a: Texts, b: Texts)
    requires forall f: Field :: a.Get(f) == b.Get(f)
    ensures a == b
  {
    assert a.Get(Name) == b.Get(Name) && a.Get(Email) == b.Get(Email) && a.Get(Phone) == b.Get(Phone);
    assert a.Get(Subject) == b.Get(Subject) && a.Get(Message) == b.Get(Message);
  }

  /** What `form.reset()` leaves in the inputs. */
  const Blank := Texts("", "", "", "", "")

  /** The order in which validateForm checks the fields. */
  const Fields: seq<Field> := [Name, Email, Phone, Subject, Message]

  const SendingText := "Sending..."

  /** Where validateForm checks field `f`: `Fields` lists every field, once. */
  function Position(f: Field): (k: nat)
    ensures k < |Fields| && Fields[k] == f
    ensures forall j :: 0 <= j < |Fields| && Fields[j] == f ==> j == k
  {
    match f
    case Name => 0
    case Email => 1
    case Phone => 2
    case Subject => 3
    case Message => 4
  }

  /** Every field passes its rule. */
  predicate AllValid(values: Texts)
  {
    forall f: Field :: FieldRule(f, values.Get(f)) == Valid
  }

  /** The slot of field `f` after a check that finds `values`: the rule's
      message when it fails, otherwise the slot as it was. */
  function Shown(f: Field, values: Texts, slot: string): (r: string)
    ensures FieldRule(f, values.Get(f)) == Valid ==> r == slot
    ensures r != "" <==> slot != "" || FieldRule(f, values.Get(f)) != Valid
  {
    match Error(f, values.Get(f))
    case Some(m) => m
    case None => slot
  }

  /** Checking the fields in the order of `Fields` covers every field. */
  lemma {:induction false} AllValidInOrder(values: Texts)
    ensures AllValid(values) <==> forall j :: 0 <= j < |Fields| ==> FieldRule(Fields[j], values.Get(Fields[j])) == Valid
  {
    if forall j :: 0 <= j < |Fields| ==> FieldRule(Fields[j], values.Get(Fields[j])) == Valid {
      forall f: Field ensures FieldRule(f, values.Get(f)) == Valid {
        assert Fields[Position(f)] == f;
      }
    }
  }

  /** Printable ASCII other than the space: '!' to '~'. */
  predicate Printable(s: string)
  {
    forall i :: 0 <= i < |s| ==> '!' <= s[i] <= '~'
  }

  /** Printable text at least `min` long passes the length rule. */
  lemma {:induction false} LengthSample(value: string, min: nat)
    requires |value| >= min >= 1 && Printable(value)
    ensures LengthRule(value, min) == Valid
  {
    assert !IsWhitespace(value[0]) && !IsWhitespace(value[|value| - 1]);
    assert TrimStart(value) == value;
    assert TrimEnd(value) == value;
  }

  /** The form passes exactly when each of the five rules passes on its field. */
  lemma {:induction false} AllValidByField(v: Texts)
    ensures AllValid(v) <==>
      FieldRule(Name, v.name) == Valid && FieldRule(Email, v.email) == Valid
      && FieldRule(Phone, v.phone) == Valid && FieldRule(Subject, v.subject) == Valid
      && FieldRule(Message, v.message) == Valid
  {
    if FieldRule(Name, v.name) == Valid && FieldRule(Email, v.email) == Valid
      && FieldRule(Phone, v.phone) == Valid && FieldRule(Subject, v.subject) == Valid
      && FieldRule(Message, v.message) == Valid
    {
      forall f: Field ensures FieldRule(f, v.Get(f)) == Valid {
      }
    }
    assert v.Get(Name) == v.name && v.Get(Email) == v.email && v.Get(Phone) == v.phone;
    assert v.Get(Subject) == v.subject && v.Get(Message) == v.message;
  }

  /** "Jo" is a long enough name. */
  lemma {:induction false} NameSample()
    ensures FieldRule(Name, "Jo") == Valid
  {
    LengthSample("Jo", 2);
  }

  /** "Hello" is a long enough subject. */
  lemma {:induction false} SubjectSample()
    ensures FieldRule(Subject, "Hello") == Valid
  {
    LengthSample("Hello", 5);
  }

  /** "Hello_there" is a long enough message. */
  lemma {:induction false} MessageSample()
    ensures FieldRule(Message, "Hello_there") == Valid
  {
    LengthSample("Hello_there", 10);
  }

  /** The form name "Jo", email "a@b.c", blank phone, subject "Hello",
      message "Hello_there" passes. */
  lemma {:induction false} SampleFormPasses()
    ensures AllValid(Texts("Jo", "a@b.c", "", "Hello", "Hello_there"))
  {
    NameSample();
    EmailSampleValid();
    SubjectSample();
    MessageSample();
    AllValidByField(Texts("Jo", "a@b.c", "", "Hello", "Hello_there"));
  }

  class ContactForm {
    var values: Texts       // the inputs' texts
    var errors: Texts       // the text of each field's error element
    var buttonText: string  // the submit button's text
    var disabled: bool      // the submit button's `disabled`
    var pending: seq<string> // the text each scheduled completion will restore, oldest first

    /** The form as the page's markup provides it: the inputs' texts, the
        error elements' texts, and the submit button's text and `disabled`.
        No completion is pending yet. */
    constructor (values: Texts, errors: Texts, buttonText: string, disabled: bool)
      ensures this.values == values && this.errors == errors
      ensures this.buttonText == buttonText && this.disabled == disabled && pending == []
    {
      this.values := values;
      this.errors := errors;
      this.buttonText := buttonText;
      this.disabled := disabled;
      pending := [];
    }

    /** showError: write `message` into the slot of `f`. */
    method ShowError(f: Field, message: string)
      modifies this`errors
      ensures errors == old(errors).Set(f, message)
    {
      errors := errors.Set(f, message);
    }

    /** clearError: empty the slot of `f`. */
    method ClearError(f: Field)
      modifies this`errors
      ensures errors == old(errors).Set(f, "")
    {
      errors := errors.Set(f, "");
    }

    /** The `input` listener: the user changed the text of `f`, and its slot is cleared. */
    method Input(f: Field, text: string)
      modifies this`values, this`errors
      ensures values == old(values).Set(f, text) && errors == old(errors).Set(f, "")
    {
      values := values.Set(f, text);
      ClearError(f);
    }

    /** One field's block of checks, shared by validateForm and
        validateField: when the rule fails, show its message; otherwise
        leave the slot alone. Reports whether the rule passed. */
    method CheckField(f: Field) returns (ok: bool)
      modifies this`errors
      ensures ok <==> FieldRule(f, values.Get(f)) == Verdict.Valid
      ensures errors == old(errors).Set(f, Shown(f, values, old(errors).Get(f)))
    {
      match Error(f, values.Get(f)) {
        case Some(m) =>
          ShowError(f, m);
          ok := false;
        case None =>
          ok := true;
          assert errors == errors.Set(f, errors.Get(f));
      }
    }

    /** validateForm: check the five fields in order with an `isValid` flag.
        The result is true exactly when every rule passes; each failing
        field's slot gets its one message, and the other slots are left as
        they were (never cleared). */
    method ValidateForm() returns (isValid: bool)
      modifies this`errors
      ensures isValid <==> AllValid(values)
      ensures forall f: Field :: errors.Get(f) == Shown(f, values, old(errors).Get(f))
      ensures forall f: Field :: FieldRule(f, values.Get(f)) == Valid ==> errors.Get(f) == old(errors).Get(f)
      ensures forall f: Field :: errors.Get(f) != "" <==> old(errors).Get(f) != "" || FieldRule(f, values.Get(f)) != Valid
    {
      isValid := true;
      ghost var checked: set<Field> := {};
      var i := 0;
      while i < |Fields|
        invariant 0 <= i <= |Fields|
        invariant forall g: Field :: g in checked <==> Position(g) < i
        invariant isValid <==> forall g: Field :: g in checked ==> FieldRule(g, values.Get(g)) == Valid
        invariant forall g: Field :: errors.Get(g) == if g in checked then Shown(g, values, old(errors).Get(g)) else old(errors).Get(g)
      {
        var f := Fields[i];
        assert Position(f) == i;
        var ok := CheckField(f);
        if !ok {
          isValid := false;
        }
        checked := checked + {f};
        i := i + 1;
      }
    }

    /** validateField (the `blur` listener): clear the slot of `f`, then write
        the message validateForm would write for `f`, if any. */
    method ValidateField(f: Field)
      modifies this`errors
      ensures errors == old(errors).Set(f, Shown(f, values, ""))
      ensures errors.Get(f) == "" <==> FieldRule(f, values.Get(f)) == Valid
    {
      ClearError(f);
      var _ := CheckField(f);
      assert old(errors).Set(f, "").Set(f, Shown(f, values, "")) == old(errors).Set(f, Shown(f, values, ""));
    }

    /** submitForm, the synchronous part: remember the button's text, show
        "Sending..." and disable the button. The remembered text is queued
        for the completion scheduled 1500 ms later. */
    method StartSending()
      modifies this`buttonText, this`disabled, this`pending
      ensures buttonText == SendingText && disabled
      ensures pending == old(pending) + [old(buttonText)]
    {
      pending := pending + [buttonText];
      buttonText := SendingText;
      disabled := true;
    }

    /** The scheduled completion of the oldest submission: reset the inputs,
        restore the text that submission remembered, enable the button. */
    method Complete()
      requires pending != []
      modifies this`values, this`buttonText, this`disabled, this`pending
      ensures values == Blank && buttonText == old(pending[0]) && !disabled
      ensures pending == old(pending[1..])
    {
      values := Blank;
      buttonText := pending[0];
      disabled := false;
      pending := pending[1..];
    }

    /** The `submit` listener: validate, and start sending only when every field passes. */
    method Submit() returns (sent: bool)
      modifies this`errors, this`buttonText, this`disabled, this`pending
      ensures sent <==> AllValid(values)
      ensures forall f: Field :: errors.Get(f) == Shown(f, values, old(errors).Get(f))
      ensures sent ==> buttonText == SendingText && disabled && pending == old(pending) + [old(buttonText)]
      ensures !sent ==> buttonText == old(buttonText) && disabled == old(disabled) && pending == old(pending)
    {
      sent := ValidateForm();
      if sent {
        StartSending();
      }
    }
  }

  /** A valid submission followed by its completion: the button goes through
      "Sending..."/disabled and comes back with its original text, enabled;
      the inputs are blank; and no error slot was written along the way. */
  method SubmitAndComplete(form: ContactForm)
    requires form.pending == [] && !form.disabled
    requires AllValid(form.values) && form.errors == Blank
    modifies form
    ensures form.values == Blank && form.errors == Blank
    ensures form.buttonText == old(form.buttonText) && !form.disabled && form.pending == []
  {
    var sent := form.Submit();
    assert sent && form.disabled && form.buttonText == SendingText;
    assert form.errors == Blank by {
      forall f: Field ensures form.errors.Get(f) == Blank.Get(f) {
      }
      TextsByField(form.errors, Blank);
    }
    form.Complete();
  }
}
