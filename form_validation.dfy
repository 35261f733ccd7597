/**
 * The validators of the contact form and of the CV-upload form: the e-mail and
 * phone patterns, the per-field decision, the submit-time check of every field
 * and the checks on the uploaded CV file. Displaying or clearing an error
 * message is represented by the result each check returns.
 */
module FormValidation {
  import opened JsText

  datatype Option<+T> = None | Some(value: T)

  // ---------------------------------------------------------------------------
  // validateEmail: /^[^\s@]+@[^\s@]+\.[^\s@]+$/
  // ---------------------------------------------------------------------------

  /** The class `[^\s@]`. */
  predicate EmailChar(c: char) {
    !IsWhitespace(c) && c != '@'
  }

  /** `[^\s@]+`: one or more characters of the class `[^\s@]`. */
  predicate EmailRun(t: string) {
    |t| > 0 && forall i :: 0 <= i < |t| ==> EmailChar(t[i])
  }

  /** `validateEmail(email)`: the whole string matches the pattern
      `[^\s@]+ @ [^\s@]+ \. [^\s@]+`, with `i` the position of the `@` and `j`
      the position of the `.` that the pattern's literal dot matches. */
  predicate ValidateEmail(email: string) {
    exists i, j | 0 <= i < j < |email| ::
      && email[i] == '@' && email[j] == '.'
      && EmailRun(email[..i]) && EmailRun(email[i + 1..j]) && EmailRun(email[j + 1..])
  }

  /** Number of occurrences of `c` in `s`. */
  function CountChar(s: string, c: char): (n: nat)
  {
    if s == [] then 0 else (if s[0] == c then 1 else 0) + CountChar(s[1..], c)
  }

  lemma {:induction false} CountCharAppend(a: string, b: string, c: char)
    ensures CountChar(a + b, c) == CountChar(a, c) + CountChar(b, c)
  {
    if a == [] {
      assert a + b == b;
    } else {
      assert (a + b)[1..] == a[1..] + b;
      CountCharAppend(a[1..], b, c);
    }
  }

  lemma {:induction false} CountCharZero(s: string, c: char)
    ensures CountChar(s, c) == 0 <==> forall i :: 0 <= i < |s| ==> s[i] != c
  {
    if s != [] {
      CountCharZero(s[1..], c);
      assert forall i :: 1 <= i < |s| ==> s[i] == s[1..][i - 1];
    }
  }

  /** `c` occurs exactly once in `s`, at position `k`, iff the count is one and
      `s[k]` is `c`. */
  lemma CountCharOnce(s: string, c: char, k: nat)
    requires k < |s| && s[k] == c
    ensures CountChar(s, c) == 1 <==> forall m :: 0 <= m < |s| && m != k ==> s[m] != c
  {
    assert s == s[..k] + ([s[k]] + s[k + 1..]);
    CountCharAppend(s[..k], [s[k]] + s[k + 1..], c);
    CountCharAppend([s[k]], s[k + 1..], c);
    CountCharZero(s[..k], c);
    CountCharZero(s[k + 1..], c);
    assert forall m :: 0 <= m < k ==> s[m] == s[..k][m];
    assert forall m :: k < m < |s| ==> s[m] == s[k + 1..][m - k - 1];
  }

  /** The text after the `@` holds a `.` that is neither its first nor its last
      character. */
  predicate HasInnerDot(t: string) {
    exists p :: 0 < p < |t| - 1 && t[p] == '.'
  }

  /** The characters of `s` between `lo` and `hi` form a `[^\s@]+` run iff
      there is at least one of them and each is in the class. */
  lemma EmailRunSlice(s: string, lo: nat, hi: nat)
    requires lo <= hi <= |s|
    ensures EmailRun(s[lo..hi]) <==> lo < hi && forall m :: lo <= m < hi ==> EmailChar(s[m])
  {
    var t := s[lo..hi];
    assert forall m :: lo <= m < hi ==> s[m] == t[m - lo];
  }

  /** With the `@` at position `i` and a `.` at position `j`, the three runs
      of the pattern match iff none of them is empty and every character but
      the `@` is in the class `[^\s@]`. */
  lemma MatchedEmailChars(email: string, i: nat, j: nat)
    requires i < j < |email| && email[j] == '.'
    ensures (EmailRun(email[..i]) && EmailRun(email[i + 1..j]) && EmailRun(email[j + 1..])) <==>
      (0 < i && i + 1 < j && j + 1 < |email| &&
       forall m :: 0 <= m < |email| && m != i ==> EmailChar(email[m]))
  {
    EmailRunSlice(email, 0, i);
    EmailRunSlice(email, i + 1, j);
    EmailRunSlice(email, j + 1, |email|);
    assert email[..i] == email[0..i];
    assert email[j + 1..] == email[j + 1..|email|];
    assert EmailChar('.');
  }

  /** The e-mail pattern in words, the first direction: a matching address has
      no whitespace, exactly one `@`, something before it, and after it a `.`
      that is neither first nor last. */
  lemma ValidEmailShape(email: string)
    requires ValidateEmail(email)
    ensures NoWhitespace(email)
    ensures CountChar(email, '@') == 1
    ensures exists k :: 0 < k < |email| && email[k] == '@' && HasInnerDot(email[k + 1..])
  {
    var i, j :| 0 <= i < j < |email| && email[i] == '@' && email[j] == '.'
      && EmailRun(email[..i]) && EmailRun(email[i + 1..j]) && EmailRun(email[j + 1..]);
    MatchedEmailChars(email, i, j);
    assert NoWhitespace(email) by {
      assert !IsWhitespace('@');
      forall m | 0 <= m < |email| ensures !IsWhitespace(email[m]) {
        if m != i {
          assert EmailChar(email[m]);
        }
      }
    }
    assert CountChar(email, '@') == 1 by {
      CountCharOnce(email, '@', i);
    }
    assert HasInnerDot(email[i + 1..]) by {
      assert email[i + 1..][j - i - 1] == '.';
    }
  }

  /** The second direction: an address of that shape matches the pattern. */
  lemma ShapedEmailValid(email: string, k: nat)
    requires NoWhitespace(email)
    requires CountChar(email, '@') == 1
    requires 0 < k < |email| && email[k] == '@' && HasInnerDot(email[k + 1..])
    ensures ValidateEmail(email)
  {
    var p :| 0 < p < |email[k + 1..]| - 1 && email[k + 1..][p] == '.';
    var j := k + 1 + p;
    assert email[j] == '.';
    assert forall m :: 0 <= m < |email| && m != k ==> EmailChar(email[m]) by {
      CountCharOnce(email, '@', k);
    }
    MatchedEmailChars(email, k, j);
  }

  /** What the e-mail pattern accepts, said in words: no whitespace, exactly one
      `@`, something before it, and after it a `.` that is neither first nor
      last. */
  lemma ValidateEmailIff(email: string)
    ensures ValidateEmail(email) <==>
      && NoWhitespace(email)
      && CountChar(email, '@') == 1
      && exists k :: 0 < k < |email| && email[k] == '@' && HasInnerDot(email[k + 1..])
  {
    if ValidateEmail(email) {
      ValidEmailShape(email);
    }
    if && NoWhitespace(email)
       && CountChar(email, '@') == 1
       && exists k :: 0 < k < |email| && email[k] == '@' && HasInnerDot(email[k + 1..])
    {
      var k :| 0 < k < |email| && email[k] == '@' && HasInnerDot(email[k + 1..]);
      ShapedEmailValid(email, k);
    }
  }

  /** An address the pattern accepts is never blank: its `@` is not whitespace. */
  lemma ValidEmailNotBlank(email: string)
    requires ValidateEmail(email)
    ensures !IsBlank(email)
  {
    var i, j :| 0 <= i < j < |email| && email[i] == '@' && email[j] == '.'
      && EmailRun(email[..i]) && EmailRun(email[i + 1..j]) && EmailRun(email[j + 1..]);
    BlankIffAllWhitespace(email);
  }

  // ---------------------------------------------------------------------------
  // validatePhone: !phone || /^[\d\s\-\+\(\)]+$/.test(phone)
  // ---------------------------------------------------------------------------

  /** The class `[\d\s\-\+\(\)]`. */
  predicate PhoneChar(c: char) {
    IsDigit(c) || IsWhitespace(c) || c == '-' || c == '+' || c == '(' || c == ')'
  }

  /** `validatePhone(phone)`: the empty string passes (the field is optional),
      any other string must consist of one or more characters of the class. */
  predicate ValidatePhone(phone: string) {
    phone == "" || (|phone| >= 1 && forall i :: 0 <= i < |phone| ==> PhoneChar(phone[i]))
  }

  /** Acceptable phone values are closed under concatenation: the pattern
      constrains each character on its own and puts no bound on the length. */
  lemma ValidatePhoneAppend(a: string, b: string)
    requires ValidatePhone(a) && ValidatePhone(b)
    ensures ValidatePhone(a + b)
  {
    if a != "" && b != "" {
      forall i | 0 <= i < |a + b|
        ensures PhoneChar((a + b)[i])
      {
        if i < |a| {
          assert (a + b)[i] == a[i];
        } else {
          assert (a + b)[i] == b[i - |a|];
        }
      }
    } else if a == "" {
      assert a + b == b;
    } else {
      assert a + b == a;
    }
  }

  /** A blank value is an acceptable phone number: whitespace is in the class. */
  lemma BlankPhoneValid(phone: string)
    requires IsBlank(phone)
    ensures ValidatePhone(phone)
  {
    BlankIffAllWhitespace(phone);
  }

  // ---------------------------------------------------------------------------
  // validateField
  // ---------------------------------------------------------------------------

  /** The three attributes of an input element that `validateField` reads:
      `required`, `type` (for example "text", "email", "tel", "textarea") and
      `value`. */
  datatype Field = Field(required: bool, kind: string, value: string)

  /** `true` with the error cleared, or `false` with the message shown. */
  datatype FieldResult = Valid | Invalid(message: string)

  const RequiredMessage := "This field is required"
  const EmailMessage := "Please enter a valid email address"
  const PhoneMessage := "Please enter a valid phone number"

  /** `validateField(input)`: the first failing check decides the result. */
  function ValidateField(f: Field): FieldResult {
    if IsBlank(f.value) && f.required then Invalid(RequiredMessage)
    else if f.kind == "email" && !ValidateEmail(f.value) then Invalid(EmailMessage)
    else if f.kind == "tel" && !ValidatePhone(f.value) then Invalid(PhoneMessage)
    else Valid
  }

  /** The order of the checks: each message is given exactly when its check
      fails and every earlier one passes; otherwise the field is valid. */
  lemma ValidateFieldOrder(f: Field)
    ensures ValidateField(f) == Invalid(RequiredMessage) <==> f.required && IsBlank(f.value)
    ensures ValidateField(f) == Invalid(EmailMessage) <==>
      !(f.required && IsBlank(f.value)) && f.kind == "email" && !ValidateEmail(f.value)
    ensures ValidateField(f) == Invalid(PhoneMessage) <==>
      !(f.required && IsBlank(f.value)) && f.kind == "tel" && !ValidatePhone(f.value)
    ensures ValidateField(f) == Valid <==>
      && !(f.required && IsBlank(f.value))
      && (f.kind == "email" ==> ValidateEmail(f.value))
      && (f.kind == "tel" ==> ValidatePhone(f.value))
  {
  }

  /** An e-mail field passes exactly when its value matches the pattern,
      whether it is required or not: a matching value is never blank. */
  lemma EmailFieldValidIff(f: Field)
    requires f.kind == "email"
    ensures ValidateField(f) == Valid <==> ValidateEmail(f.value)
  {
    if ValidateEmail(f.value) {
      ValidEmailNotBlank(f.value);
    }
  }

  /** A phone field passes exactly when it is not a required field holding
      only whitespace and each of its characters is in the phone class. */
  lemma TelFieldValidIff(f: Field)
    requires f.kind == "tel"
    ensures ValidateField(f) == Valid <==>
      && !(f.required && AllWhitespace(f.value))
      && forall i :: 0 <= i < |f.value| ==> PhoneChar(f.value[i])
  {
    BlankIffAllWhitespace(f.value);
    assert f.kind != "email" by {
      assert |f.kind| != |"email"|;
    }
    if !(f.required && IsBlank(f.value)) {
      assert ValidateField(f) == Valid <==> ValidatePhone(f.value);
    }
  }

  /** A field of any other type passes exactly when it is optional or holds a
      non-whitespace character. */
  lemma OtherFieldValidIff(f: Field)
    requires f.kind != "email" && f.kind != "tel"
    ensures ValidateField(f) == Valid <==> !f.required || !AllWhitespace(f.value)
  {
    BlankIffAllWhitespace(f.value);
  }

  /** A blank optional field passes unless it is an e-mail field. */
  lemma OptionalBlankFieldValid(f: Field)
    requires !f.required && IsBlank(f.value) && f.kind != "email"
    ensures ValidateField(f) == Valid
  {
    BlankPhoneValid(f.value);
  }

  // ---------------------------------------------------------------------------
  // The contact form's submit handler
  // ---------------------------------------------------------------------------

  /** What one input of the form ends up showing: nothing for an input the page
      lacks, otherwise the result of `validateField`. */
  function Outcome(input: Option<Field>): Option<FieldResult> {
    match input
    case None => None
    case Some(f) => Some(ValidateField(f))
  }

  /** The input shows an error message. */
  predicate ShowsError(outcome: Option<FieldResult>) {
    outcome.Some? && outcome.value.Invalid?
  }

  /** The submit handler's validation pass over the inputs `#name`, `#email`,
      `#phone`, `#message` (`None` for one the page lacks). Every present field
      is validated, also after one has failed, so every field ends up showing its
      own outcome; the form is valid iff no input shows an error. */
  method ValidateContactForm(fields: seq<Option<Field>>)
    returns (isValid: bool, outcomes: seq<Option<FieldResult>>)
    ensures |outcomes| == |fields|
    ensures forall i :: 0 <= i < |fields| ==> outcomes[i] == Outcome(fields[i])
    ensures isValid <==> forall i :: 0 <= i < |fields| ==> !ShowsError(outcomes[i])
    ensures isValid <==>
      forall i :: 0 <= i < |fields| && fields[i].Some? ==> ValidateField(fields[i].value) == Valid
  {
    isValid := true;
    outcomes := [];
    for n := 0 to |fields|
      invariant |outcomes| == n
      invariant forall i :: 0 <= i < n ==> outcomes[i] == Outcome(fields[i])
      invariant isValid <==> forall i :: 0 <= i < n ==> !ShowsError(outcomes[i])
    {
      var r := Outcome(fields[n]);
      if ShowsError(r) {
        isValid := false;
      }
      outcomes := outcomes + [r];
    }
  }

  // ---------------------------------------------------------------------------
  // The CV form's submit handler
  // ---------------------------------------------------------------------------

  /** The attributes of a selected file that the handler reads. */
  datatype UploadFile = UploadFile(name: string, size: nat, mimeType: string)

  datatype CvResult = CvAccepted(file: UploadFile) | CvRejected(message: string)

  const MaxCvSize: nat := 5 * 1024 * 1024
  const AllowedCvTypes: seq<string> := [
    "application/pdf",
    "application/msword",
    "application/vnd.openxmlformats-officedocument.wordprocessingml.document"
  ]

  const NoFileMessage := "Please select a CV file to upload"
  const SizeMessage := "File size must be less than 5MB"
  const TypeMessage := "Please upload a PDF or DOC file"

  /** The checks the CV submit handler makes on `fileInput.files`, in order;
      only the first selected file is looked at. */
  function CheckCvUpload(files: seq<UploadFile>): CvResult {
    if |files| == 0 then CvRejected(NoFileMessage)
    else if files[0].size > MaxCvSize then CvRejected(SizeMessage)
    else if files[0].mimeType !in AllowedCvTypes then CvRejected(TypeMessage)
    else CvAccepted(files[0])
  }

  /** The upload goes ahead exactly for a first file of at most 5 MiB whose type
      is PDF, DOC or DOCX; the error for an empty selection comes before the
      size error, which comes before the type error. */
  lemma CheckCvUploadIff(files: seq<UploadFile>)
    ensures CheckCvUpload(files).CvAccepted? <==>
      |files| > 0 && files[0].size <= MaxCvSize && files[0].mimeType in AllowedCvTypes
    ensures CheckCvUpload(files).CvAccepted? ==> CheckCvUpload(files).file == files[0]
    ensures CheckCvUpload(files) == CvRejected(NoFileMessage) <==> |files| == 0
    ensures CheckCvUpload(files) == CvRejected(SizeMessage) <==>
      |files| > 0 && files[0].size > MaxCvSize
    ensures CheckCvUpload(files) == CvRejected(TypeMessage) <==>
      |files| > 0 && files[0].size <= MaxCvSize && files[0].mimeType !in AllowedCvTypes
  {
  }

  /** The limit is inclusive: a PDF of exactly 5 MiB is accepted, one byte more
      is refused for its size whatever its type. */
  lemma CvSizeBoundary(name: string, mimeType: string)
    ensures CheckCvUpload([UploadFile(name, 5242880, "application/pdf")]).CvAccepted?
    ensures CheckCvUpload([UploadFile(name, 5242881, mimeType)]) == CvRejected(SizeMessage)
  {
  }
}
