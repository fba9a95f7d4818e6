/** The contact form's per-field validation rules, shared by the whole-form
    check and the on-blur check (Terry/script.js:96-140 and 148-186). Each
    rule is a pure function of the field's current text. */
module Rules {
  import opened Seqs
  import opened Text

  datatype Option<T> = None | Some(value: T)

  datatype Field = Name | Email | Phone | Subject | Message

  /** Outcome of one rule: passes, blank, shorter than the minimum, or not of the expected shape. */
  datatype Verdict = Valid | Required | TooShort | BadFormat

  /** Minimum trimmed length for the three free-text fields. */
  function MinLength(f: Field): (n: nat)
    ensures n == 0 <==> f == Email || f == Phone
  {
    match f
    case Name => 2
    case Subject => 5
    case Message => 10
    case _ => 0
  }

  /** "Required, then at least `min` characters after trimming". */
  function LengthRule(value: string, min: nat): (v: Verdict)
    ensures v != BadFormat
  {
    if Trim(value) == [] then Required
    else if |Trim(value)| < min then TooShort
    else Valid
  }

  /** Blank text is required; otherwise text is too short exactly when its
      trimmed length is below the minimum; otherwise it passes. */
  lemma {:induction false} LengthRuleSpec(value: string, min: nat)
    ensures LengthRule(value, min) == Required <==> AllWhitespace(value)
    ensures LengthRule(value, min) == TooShort <==> !AllWhitespace(value) && |Trim(value)| < min
    ensures LengthRule(value, min) == Valid <==> !AllWhitespace(value) && |Trim(value)| >= min
  {
    TrimEmptyIff(value);
  }

  // ---------------------------------------------------------------- email

  /** The character class [^\s@]. */
  predicate AddressChar(c: char)
  {
    !IsWhitespace(c) && c != '@'
  }

  /** The repetition [^\s@]+. */
  predicate AddressRun(s: string)
  {
    |s| > 0 && forall i :: 0 <= i < |s| ==> AddressChar(s[i])
  }

  /** The anchored pattern /^[^\s@]+@[^\s@]+\.[^\s@]+$/ read as a
      concatenation: it matches when some '@' at `at` and some '.' at `dot`
      split the text into three non-empty runs of [^\s@]. */
  predicate EmailPattern(s: string): (b: bool)
    ensures b ==> 5 <= |s|
  {
    exists at, dot | 0 <= at < dot < |s| ::
      s[at] == '@' && s[dot] == '.'
      && AddressRun(s[..at]) && AddressRun(s[at + 1..dot]) && AddressRun(s[dot + 1..])
  }

  /** A '.' that is neither the first nor the last character of `domain`. */
  predicate InteriorDot(domain: string)
  {
    exists k | 0 < k < |domain| - 1 :: domain[k] == '.'
  }

  /** The shape of an address in plain words: exactly one '@', no whitespace
      anywhere, a non-empty part before the '@', and after it a domain with a
      '.' that is neither its first nor its last character. */
  predicate EmailShape(s: string)
  {
    NoWhitespace(s) && Count(s, '@') == 1
    && (CountZero(s, '@');
        var at := IndexOf(s, '@');
        at > 0 && InteriorDot(s[at + 1..]))
  }

  lemma {:induction false} EmailPatternHasShape(s: string, at: nat, dot: nat)
    requires at < dot < |s| && s[at] == '@' && s[dot] == '.'
    requires AddressRun(s[..at]) && AddressRun(s[at + 1..dot]) && AddressRun(s[dot + 1..])
    ensures EmailShape(s)
  {
    var local, mid, tail := s[..at], s[at + 1..dot], s[dot + 1..];
    forall j | 0 <= j < |s| && j != at ensures AddressChar(s[j]) || s[j] == '.' {
      if j < at { assert s[j] == local[j]; }
      else if j < dot { assert s[j] == mid[j - at - 1]; }
      else if j > dot { assert s[j] == tail[j - dot - 1]; }
    }
    CountOneAt(s, '@', at);
    CountZero(s, '@');
    assert IndexOf(s, '@') == at;
    assert s[at + 1..][dot - at - 1] == '.';
  }

  lemma {:induction false} EmailShapeHasPattern(s: string)
    requires EmailShape(s)
    ensures EmailPattern(s)
  {
    CountZero(s, '@');
    var at := IndexOf(s, '@');
    var domain := s[at + 1..];
    var k :| 0 < k < |domain| - 1 && domain[k] == '.';
    var dot := at + 1 + k;
    CountOneAt(s, '@', at);
    assert s[dot] == '.';
    var local, mid, tail := s[..at], s[at + 1..dot], s[dot + 1..];
    forall i | 0 <= i < |local| ensures AddressChar(local[i]) { assert local[i] == s[i]; }
    forall i | 0 <= i < |mid| ensures AddressChar(mid[i]) { assert mid[i] == s[at + 1 + i]; }
    forall i | 0 <= i < |tail| ensures AddressChar(tail[i]) { assert tail[i] == s[dot + 1 + i]; }
  }

  /** The pattern accepts exactly the addresses of the plain-words shape. */
  lemma {:induction false} EmailPatternIff(s: string)
    ensures EmailPattern(s) <==> EmailShape(s)
  {
    if EmailPattern(s) {
      var at, dot :| 0 <= at < dot < |s| && s[at] == '@' && s[dot] == '.'
        && AddressRun(s[..at]) && AddressRun(s[at + 1..dot]) && AddressRun(s[dot + 1..]);
      EmailPatternHasShape(s, at, dot);
    }
    if EmailShape(s) {
      EmailShapeHasPattern(s);
    }
  }

  /** Email: required on the trimmed text; the pattern is tested on the untrimmed text. */
  function EmailRule(value: string): (v: Verdict)
    ensures v != TooShort
  {
    if Trim(value) == [] then Required
    else if EmailPattern(value) then Valid
    else BadFormat
  }

  /** Blank text is required; otherwise an address passes exactly when it has
      the plain-words shape, and is malformed otherwise. */
  lemma {:induction false} EmailRuleSpec(value: string)
    ensures EmailRule(value) == Required <==> AllWhitespace(value)
    ensures EmailRule(value) == Valid <==> EmailShape(value)
    ensures EmailRule(value) == BadFormat <==> !AllWhitespace(value) && !EmailShape(value)
  {
    TrimEmptyIff(value);
    EmailPatternIff(value);
  }

  // ---------------------------------------------------------------- phone

  /** The characters /[\s\-\(\)]/g deletes before the phone pattern is tested. */
  predicate IsSeparator(c: char)
  {
    IsWhitespace(c) || c == '-' || c == '(' || c == ')'
  }

  /** `value.replace(/[\s\-\(\)]/g, '')`. */
  function Strip(s: string): (t: string)
    ensures |t| <= |s|
  {
    if s == [] then [] else (if IsSeparator(s[0]) then [] else [s[0]]) + Strip(s[1..])
  }

  /** Stripping leaves no separator and never lengthens the text. */
  lemma {:induction false} StripRemovesSeparators(s: string)
    ensures |Strip(s)| <= |s|
    ensures forall i :: 0 <= i < |Strip(s)| ==> !IsSeparator(Strip(s)[i])
  {
    if s != [] {
      StripRemovesSeparators(s[1..]);
      var head := if IsSeparator(s[0]) then [] else [s[0]];
      forall i | 0 <= i < |Strip(s)| ensures !IsSeparator(Strip(s)[i]) {
        if i >= |head| { assert Strip(s)[i] == Strip(s[1..])[i - |head|]; }
      }
    }
  }

  /** Stripping distributes over concatenation, so it keeps every other character in order. */
  lemma {:induction false} StripAppend(a: string, b: string)
    ensures Strip(a + b) == Strip(a) + Strip(b)
  {
    if a == [] {
      assert a + b == b;
    } else {
      assert (a + b)[1..] == a[1..] + b;
      StripAppend(a[1..], b);
    }
  }

  /** Text without separators is left as it is; in particular stripping is idempotent. */
  lemma {:induction false} StripKeeps(s: string)
    requires forall i :: 0 <= i < |s| ==> !IsSeparator(s[i])
    ensures Strip(s) == s
  {
    if s != [] {
      StripKeeps(s[1..]);
    }
  }

  predicate IsDigit(c: char)
  {
    '0' <= c <= '9'
  }

  /** [1-9][\d]{0,15}: a non-zero digit followed by at most fifteen digits. */
  predicate PhoneDigits(d: string)
  {
    1 <= |d| <= 16 && '1' <= d[0] <= '9' && forall i :: 1 <= i < |d| ==> IsDigit(d[i])
  }

  /** The anchored pattern /^[\+]?[1-9][\d]{0,15}$/. */
  predicate PhonePattern(t: string): (b: bool)
    ensures b ==> 1 <= |t| <= 17
  {
    PhoneDigits(t) || (|t| > 0 && t[0] == '+' && PhoneDigits(t[1..]))
  }

  /** Phone: optional; when not blank, the stripped text must match the pattern. */
  function PhoneRule(value: string): (v: Verdict)
    ensures v == Valid || v == BadFormat
  {
    if Trim(value) != [] && !PhonePattern(Strip(value)) then BadFormat else Valid
  }

  /** The phone is never required: blank text passes, and other text passes
      exactly when its stripped form matches the pattern. */
  lemma {:induction false} PhoneRuleSpec(value: string)
    ensures PhoneRule(value) == Valid <==> AllWhitespace(value) || PhonePattern(Strip(value))
    ensures PhoneRule(value) != Valid ==> PhoneRule(value) == BadFormat
  {
    TrimEmptyIff(value);
  }

  /** An accepted phone number is one to sixteen digits with an optional leading '+'. */
  lemma {:induction false} PhoneAcceptedLength(value: string)
    requires !AllWhitespace(value) && PhoneRule(value) == Valid
    ensures 1 <= |Strip(value)| <= 17
    ensures forall i :: 0 <= i < |Strip(value)| ==> IsDigit(Strip(value)[i]) || (i == 0 && Strip(value)[i] == '+')
  {
    PhoneRuleSpec(value);
    var t := Strip(value);
    if !PhoneDigits(t) {
      assert PhoneDigits(t[1..]);
      forall i | 1 <= i < |t| ensures IsDigit(t[i]) {
        assert t[i] == t[1..][i - 1];
      }
    }
  }

  // ---------------------------------------------------------------- fields

  /** Which verdicts a field's rule can give. */
  predicate Possible(f: Field, v: Verdict)
  {
    match f
    case Email => v != TooShort
    case Phone => v == Valid || v == BadFormat
    case _ => v != BadFormat
  }

  /** The rule the form applies to field `f` with current text `value`. */
  function FieldRule(f: Field, value: string): (v: Verdict)
    ensures Possible(f, v)
  {
    match f
    case Email => EmailRule(value)
    case Phone => PhoneRule(value)
    case _ => LengthRule(value, MinLength(f))
  }

  /** The text showError writes into the field's error slot for a failing verdict. */
  function ErrorText(f: Field, v: Verdict): (m: string)
    requires Possible(f, v) && v != Valid
    ensures m != []
  {
    match f
    case Name => if v == Required then "Full name is required" else "Name must be at least 2 characters"
    case Email => if v == Required then "Email address is required" else "Please enter a valid email address"
    case Phone => "Please enter a valid phone number"
    case Subject => if v == Required then "Subject is required" else "Subject must be at least 5 characters"
    case Message => if v == Required then "Message is required" else "Message must be at least 10 characters"
  }

  /** The one message (if any) a check of field `f` produces: none exactly
      when the rule passes, and never an empty one, so a written slot is
      always distinguishable from a cleared one. */
  function Error(f: Field, value: string): (m: Option<string>)
    ensures m == None <==> FieldRule(f, value) == Valid
    ensures m.Some? ==> m.value != []
  {
    var v := FieldRule(f, value);
    if v == Valid then None else Some(ErrorText(f, v))
  }

  /** "a@b.c" passes the email rule. */
  lemma {:induction false} EmailSampleValid()
    ensures EmailRule("a@b.c") == Valid
  {
    var s := "a@b.c";
    assert s[..1] == "a" && s[2..3] == "b" && s[4..] == "c";
    EmailPatternHasShape(s, 1, 3);
    EmailRuleSpec(s);
  }

  /** "a@b" has no dot in its domain. */
  lemma {:induction false} EmailSampleNoDot()
    ensures EmailRule("a@b") == BadFormat
  {
    var s := "a@b";
    assert !IsWhitespace(s[0]);
    assert s[2..] == "b";
    EmailRuleSpec(s);
  }

  /** "a b@c.d" contains a space. */
  lemma {:induction false} EmailSampleInnerSpace()
    ensures EmailRule("a b@c.d") == BadFormat
  {
    var s := "a b@c.d";
    assert !IsWhitespace(s[0]) && IsWhitespace(s[1]);
    EmailRuleSpec(s);
  }

  /** " a@b.c" is not blank, and the pattern sees its leading space. */
  lemma {:induction false} EmailSampleLeadingSpace()
    ensures EmailRule(" a@b.c") == BadFormat
  {
    var s := " a@b.c";
    assert IsWhitespace(s[0]) && !IsWhitespace(s[1]);
    EmailRuleSpec(s);
  }

  predicate AllDigits(s: string)
  {
    forall i :: 0 <= i < |s| ==> IsDigit(s[i])
  }

  /** Digits are not separators, so stripping keeps a run of digits. */
  lemma {:induction false} StripDigits(s: string)
    requires AllDigits(s)
    ensures Strip(s) == s
  {
    StripKeeps(s);
  }

  lemma {:induction false} StripSeparatorsOnly(s: string)
    requires forall i :: 0 <= i < |s| ==> IsSeparator(s[i])
    ensures Strip(s) == []
  {
    if s != [] {
      StripSeparatorsOnly(s[1..]);
    }
  }

  /** Separators between two pieces of text vanish. */
  lemma {:induction false} StripAround(a: string, sep: string, b: string)
    requires forall i :: 0 <= i < |sep| ==> IsSeparator(sep[i])
    ensures Strip(a + sep + b) == Strip(a) + Strip(b)
  {
    StripSeparatorsOnly(sep);
    StripAppend(a + sep, b);
    StripAppend(a, sep);
  }

  /** A number written "(AAA) BBB-CCCC" strips to its digits AAABBBCCCC. */
  lemma {:induction false} FormattedNumberStrips(area: string, prefix: string, line: string)
    requires AllDigits(area) && AllDigits(prefix) && AllDigits(line)
    ensures Strip("(" + area + ") " + prefix + "-" + line) == area + prefix + line
  {
    StripDigits(area);
    StripDigits(prefix);
    StripDigits(line);
    var open := "(" + area;
    StripSeparatorsOnly("(");
    StripAppend("(", area);
    assert Strip(open) == area;
    var middle := open + ") " + prefix;
    StripAround(open, ") ", prefix);
    assert Strip(middle) == area + prefix;
    StripAround(middle, "-", line);
  }

  /** A number written "(AAA) BBB-CCCC" passes the phone rule when its first
      digit is not zero and it has at most sixteen digits. */
  lemma {:induction false} FormattedNumberPasses(area: string, prefix: string, line: string)
    requires AllDigits(area) && AllDigits(prefix) && AllDigits(line)
    requires |area| >= 1 && area[0] != '0' && |area| + |prefix| + |line| <= 16
    ensures PhoneRule("(" + area + ") " + prefix + "-" + line) == Valid
  {
    var s := "(" + area + ") " + prefix + "-" + line;
    FormattedNumberStrips(area, prefix, line);
    var d := area + prefix + line;
    assert AllDigits(d) by {
      forall i | 0 <= i < |d| ensures IsDigit(d[i]) {
        if i < |area| {
          assert d[i] == area[i];
        } else if i < |area| + |prefix| {
          assert d[i] == prefix[i - |area|];
        } else {
          assert d[i] == line[i - |area| - |prefix|];
        }
      }
    }
    assert d[0] == area[0];
    assert PhoneDigits(d);
    assert s[0] == '(';
    PhoneRuleSpec(s);
  }

  /** "(555) 123-4567" passes the phone rule: it is "(AAA) BBB-CCCC" with
      AAA = "555", BBB = "123", CCCC = "4567". */
  lemma {:induction false} PhoneSampleSeparated()
    ensures PhoneRule("(555) 123-4567") == Valid
  {
    FormattedNumberPasses("555", "123", "4567");
    assert "(" + "555" + ") " + "123" + "-" + "4567" == "(555) 123-4567";
  }

  /** A '+' followed by one to sixteen digits, the first not zero, passes. */
  lemma {:induction false} PlusNumberPasses(d: string)
    requires AllDigits(d) && 1 <= |d| <= 16 && d[0] != '0'
    ensures PhoneRule("+" + d) == Valid
  {
    var s := "+" + d;
    StripDigits(d);
    StripKeeps("+");
    StripAppend("+", d);
    assert s[1..] == d;
    assert PhonePattern(Strip(s));
    assert s[0] == '+';
    PhoneRuleSpec(s);
  }

  /** "+12345" passes: a '+' and five digits. */
  lemma {:induction false} PhoneSamplePlus()
    ensures PhoneRule("+12345") == Valid
  {
    PlusNumberPasses("12345");
    assert "+" + "12345" == "+12345";
  }

  /** "abc" is not a phone number. */
  lemma {:induction false} PhoneSampleLetters()
    ensures PhoneRule("abc") == BadFormat
  {
    StripKeeps("abc");
    assert !IsWhitespace("abc"[0]);
  }

  /** "0123" starts with a zero. */
  lemma {:induction false} PhoneSampleLeadingZero()
    ensures PhoneRule("0123") == BadFormat
  {
    StripKeeps("0123");
    assert !IsWhitespace("0123"[0]);
  }
}
