/** The password form: the strength meter shown while a password is chosen, and
    the gating that decides when the form hands a password to the page. In
    encrypt mode a password is handed over only once it is confirmed; in decrypt
    mode every edit is handed over. */
module PasswordInput {
  import opened Basics

  // ---------------------------------------------------------------------------
  // Strength score

  predicate IsUpper(c: char) { 'A' <= c <= 'Z' }
  predicate IsLower(c: char) { 'a' <= c <= 'z' }
  predicate IsDigit(c: char) { '0' <= c <= '9' }

  /** The class `[^A-Za-z0-9]`. */
  predicate IsOther(c: char) { !IsUpper(c) && !IsLower(c) && !IsDigit(c) }

  predicate HasUpper(s: string) { exists i :: 0 <= i < |s| && IsUpper(s[i]) }
  predicate HasLower(s: string) { exists i :: 0 <= i < |s| && IsLower(s[i]) }
  predicate HasDigit(s: string) { exists i :: 0 <= i < |s| && IsDigit(s[i]) }
  predicate HasOther(s: string) { exists i :: 0 <= i < |s| && IsOther(s[i]) }

  function Point(b: bool): nat { if b then 1 else 0 }

  /** Passwords are ASCII here, so `|pass|` is the UTF-16 length the form measures.

      How many of the six criteria hold: length at least 8, length at least 12,
      an upper-case letter, a lower-case letter, a digit, any other character. */
  function CriteriaMet(pass: AsciiString): (n: nat)
    ensures n <= 6
  {
    Point(|pass| >= 8) + Point(|pass| >= 12)
    + Point(HasUpper(pass)) + Point(HasLower(pass)) + Point(HasDigit(pass)) + Point(HasOther(pass))
  }

  /** calculatePasswordStrength: 0 for the empty password, otherwise the share of
      criteria met, as a percentage rounded down and capped at 100. */
  function Strength(pass: AsciiString): (r: int)
    ensures 0 <= r <= 100
    ensures pass == "" ==> r == 0
  {
    if pass == "" then 0 else Min(CriteriaMet(pass) * 100 / 6, 100)
  }

  /** The percentage each criteria count maps to. */
  lemma ScoreTable(pass: AsciiString)
    requires pass != ""
    ensures var n := CriteriaMet(pass);
            Strength(pass) == (if n == 0 then 0 else if n == 1 then 16 else if n == 2 then 33
                               else if n == 3 then 50 else if n == 4 then 66 else if n == 5 then 83 else 100)
  {
  }

  /** Every character belongs to one of the four classes, so a non-empty password
      meets at least one criterion and scores at least 16; only the empty
      password scores 0. */
  lemma NonEmptyScoresAtLeast16(pass: AsciiString)
    ensures pass != "" <==> Strength(pass) >= 16
  {
    if pass != "" {
      var c := pass[0];
      if IsUpper(c) { assert HasUpper(pass); }
      else if IsLower(c) { assert HasLower(pass); }
      else if IsDigit(c) { assert HasDigit(pass); }
      else { assert HasOther(pass); }
      ScoreTable(pass);
    }
  }

  /** Full strength exactly when the password has at least 12 characters and all
      four character classes. */
  lemma FullStrengthIff(pass: AsciiString)
    ensures Strength(pass) == 100
            <==> |pass| >= 12 && HasUpper(pass) && HasLower(pass) && HasDigit(pass) && HasOther(pass)
  {
    if pass != "" {
      ScoreTable(pass);
    }
  }

  // ---------------------------------------------------------------------------
  // Labels

  /** getStrengthText. */
  function StrengthText(strength: int): (r: string)
    ensures r == "Weak" <==> strength < 40
    ensures r == "Medium" <==> 40 <= strength < 70
    ensures r == "Strong" <==> 70 <= strength
  {
    if strength < 40 then "Weak" else if strength < 70 then "Medium" else "Strong"
  }

  /** getStrengthColor: the class of the meter bar. */
  function StrengthColor(strength: int): (r: string)
    ensures r == "password-strength-weak" <==> strength < 40
    ensures r == "password-strength-medium" <==> 40 <= strength < 70
    ensures r == "password-strength-strong" <==> 70 <= strength
  {
    if strength < 40 then "password-strength-weak"
    else if strength < 70 then "password-strength-medium"
    else "password-strength-strong"
  }

  /** The class of the label text. */
  function StrengthTextClass(strength: int): (r: string)
    ensures r == "text-vault-danger" <==> strength < 40
    ensures r == "text-vault-warning" <==> 40 <= strength < 70
    ensures r == "text-vault-success" <==> 70 <= strength
  {
    if strength < 40 then "text-vault-danger"
    else if strength < 70 then "text-vault-warning"
    else "text-vault-success"
  }

  /** The three displays use the same thresholds, so they always agree. */
  lemma LabelsAgree(strength: int)
    ensures (StrengthText(strength) == "Weak" <==> StrengthColor(strength) == "password-strength-weak")
            && (StrengthText(strength) == "Weak" <==> StrengthTextClass(strength) == "text-vault-danger")
    ensures (StrengthText(strength) == "Medium" <==> StrengthColor(strength) == "password-strength-medium")
            && (StrengthText(strength) == "Medium" <==> StrengthTextClass(strength) == "text-vault-warning")
    ensures (StrengthText(strength) == "Strong" <==> StrengthColor(strength) == "password-strength-strong")
            && (StrengthText(strength) == "Strong" <==> StrengthTextClass(strength) == "text-vault-success")
  {
  }

  /** In terms of criteria: Weak up to two, Medium three or four, Strong five or six. */
  lemma LabelOfPassword(pass: AsciiString)
    ensures StrengthText(Strength(pass)) == "Weak" <==> CriteriaMet(pass) <= 2
    ensures StrengthText(Strength(pass)) == "Medium" <==> 3 <= CriteriaMet(pass) <= 4
    ensures StrengthText(Strength(pass)) == "Strong" <==> CriteriaMet(pass) >= 5
  {
    if pass != "" {
      ScoreTable(pass);
    }
  }

  // ---------------------------------------------------------------------------
  // Form state and emission

  /** The component's state (the show/hide toggle is presentational and left out). */
  datatype FormState = FormState(password: AsciiString, confirm: AsciiString, strength: int, mismatch: bool)

  /** The state the form is mounted with. */
  function InitialForm(): FormState {
    FormState("", "", 0, false)
  }

  datatype FormEvent = PasswordEdited(value: AsciiString) | ConfirmEdited(value: AsciiString)

  /** The state after one edit, and the value handed to `onChange`, if any. */
  datatype FormStep = FormStep(state: FormState, emitted: Option<AsciiString>)

  /** handlePasswordChange. */
  function OnPasswordChange(mode: Mode, st: FormState, value: AsciiString): (r: FormStep)
    ensures r.state.password == value && r.state.confirm == st.confirm
    ensures r.state.strength == Strength(value)
    ensures mode == Decrypt ==> r.emitted == Some(value) && r.state.mismatch == st.mismatch
    ensures mode == Encrypt ==> r.state.mismatch == (st.confirm != "" && st.confirm != value)
    ensures mode == Encrypt ==> (r.emitted.Some? <==> st.confirm == value)
    ensures r.emitted.Some? ==> r.emitted.value == value
  {
    var strength := Strength(value);
    match mode
    case Encrypt =>
      var mismatch := st.confirm != "" && st.confirm != value;
      FormStep(FormState(value, st.confirm, strength, mismatch),
               if st.confirm == value then Some(value) else None)
    case Decrypt =>
      FormStep(st.(password := value, strength := strength), Some(value))
  }

  /** handleConfirmChange. */
  function OnConfirmChange(st: FormState, value: AsciiString): (r: FormStep)
    ensures r.state.confirm == value && r.state.password == st.password
    ensures r.state.strength == st.strength
    ensures r.state.mismatch <==> value != st.password
    ensures r.emitted.Some? <==> value == st.password
    ensures r.emitted.Some? ==> r.emitted.value == st.password
  {
    FormStep(st.(confirm := value, mismatch := value != st.password),
             if value == st.password then Some(st.password) else None)
  }

  function Step(mode: Mode, st: FormState, ev: FormEvent): FormStep {
    match ev
    case PasswordEdited(v) => OnPasswordChange(mode, st, v)
    case ConfirmEdited(v) => OnConfirmChange(st, v)
  }

  /** A value handed to `onChange`, with the form state right after the edit. */
  datatype Emitted = Emitted(value: AsciiString, after: FormState)

  datatype FormRun = FormRun(final: FormState, emissions: seq<Emitted>)

  /** A sequence of edits, in order. */
  function Run(mode: Mode, st: FormState, events: seq<FormEvent>): FormRun
    decreases |events|
  {
    if events == [] then FormRun(st, [])
    else
      var step := Step(mode, st, events[0]);
      var rest := Run(mode, step.state, events[1..]);
      var here := if step.emitted.Some? then [Emitted(step.emitted.value, step.state)] else [];
      FormRun(rest.final, here + rest.emissions)
  }

  /** The mismatch flag and the meter agree with the fields: a mismatch is shown
      only when the fields differ, and always when a non-empty confirmation
      differs from the password. */
  predicate Consistent(st: FormState) {
    && (st.mismatch ==> st.confirm != st.password)
    && (st.confirm != "" && st.confirm != st.password ==> st.mismatch)
    && st.strength == Strength(st.password)
  }

  lemma InitialFormConsistent()
    ensures Consistent(InitialForm())
  {
  }

  /** In encrypt mode every edit keeps the form consistent. */
  lemma EncryptStepConsistent(st: FormState, ev: FormEvent)
    requires Consistent(st)
    ensures Consistent(Step(Encrypt, st, ev).state)
  {
  }

  /** In encrypt mode every value handed to the page equals both the password and
      the confirmation at that moment, whatever state the form starts in (it keeps
      its fields when the page switches tabs, and decrypt-mode edits leave the
      mismatch flag as it was). */
  lemma {:induction false} EncryptEmitsOnlyConfirmed(st: FormState, events: seq<FormEvent>)
    decreases |events|
    ensures forall e :: e in Run(Encrypt, st, events).emissions ==>
              e.value == e.after.password == e.after.confirm
  {
    if events != [] {
      var step := Step(Encrypt, st, events[0]);
      EncryptEmitsOnlyConfirmed(step.state, events[1..]);
    }
  }

  /** Starting from a consistent form, encrypt-mode edits keep it consistent, in
      the final state and in the state after every hand-over. */
  lemma {:induction false} EncryptRunConsistent(st: FormState, events: seq<FormEvent>)
    requires Consistent(st)
    decreases |events|
    ensures Consistent(Run(Encrypt, st, events).final)
    ensures forall e :: e in Run(Encrypt, st, events).emissions ==> Consistent(e.after)
  {
    if events != [] {
      var step := Step(Encrypt, st, events[0]);
      EncryptStepConsistent(st, events[0]);
      EncryptRunConsistent(step.state, events[1..]);
    }
  }

  /** In decrypt mode (where only the password field is shown) every edit is
      handed to the page unchanged and in order. */
  lemma {:induction false} DecryptEmitsEveryEdit(st: FormState, events: seq<FormEvent>)
    requires forall i :: 0 <= i < |events| ==> events[i].PasswordEdited?
    decreases |events|
    ensures var run := Run(Decrypt, st, events);
            |run.emissions| == |events|
            && forall i :: 0 <= i < |events| ==> run.emissions[i].value == events[i].value
  {
    if events != [] {
      var step := Step(Decrypt, st, events[0]);
      DecryptEmitsEveryEdit(step.state, events[1..]);
    }
  }
}
