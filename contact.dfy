/**
 * The contact form page (contact-assignment-complete.js): the three input
 * patterns, the ordered error list of the submit handler, and the browser's
 * local storage, which the page appends submissions to, reads back, searches
 * by id and clears.
 */
module Contact {
  import opened Wrappers
  import opened JsString

  // ---------------------------------------------------------------------------
  // Character classes of the three patterns
  // ---------------------------------------------------------------------------

  /** `\d` without the `u` flag */
  predicate IsDigit(c: char) {
    '0' <= c <= '9'
  }

  /** `[a-zA-Z]` */
  predicate IsAsciiLetter(c: char) {
    'a' <= c <= 'z' || 'A' <= c <= 'Z'
  }

  /** `[\w.-]`: letters, digits, underscore, dot and hyphen */
  predicate IsAddressChar(c: char) {
    IsAsciiLetter(c) || IsDigit(c) || c == '_' || c == '.' || c == '-'
  }

  predicate AllDigits(s: string) {
    forall i :: 0 <= i < |s| ==> IsDigit(s[i])
  }

  predicate AllLetters(s: string) {
    forall i :: 0 <= i < |s| ==> IsAsciiLetter(s[i])
  }

  predicate AllAddressChars(s: string) {
    forall i :: 0 <= i < |s| ==> IsAddressChar(s[i])
  }

  // ---------------------------------------------------------------------------
  // The three patterns
  // ---------------------------------------------------------------------------

  /** `/^\d{10}$/` */
  function IsValidPhone(s: string): (valid: bool)
    ensures valid ==> |s| == 10 && IsTrimmed(s)
  {
    |s| == 10 && AllDigits(s)
  }

  /** `/^\d{5}$/` */
  function IsValidZip(s: string): (valid: bool)
    ensures valid ==> |s| == 5 && IsTrimmed(s)
  {
    |s| == 5 && AllDigits(s)
  }

  /**
   * `s` reads as local-part `s[..at]`, '@', domain `s[at + 1..dot]`, '.',
   * top-level part `s[dot + 1..]`, which is one way for
   * `/^[\w.-]+@[\w.-]+\.[a-zA-Z]{2,}$/` to match.
   */
  predicate EmailSplitAt(s: string, at: nat, dot: nat) {
    && 0 < at && at + 1 < dot && dot + 2 < |s|
    && s[at] == '@' && s[dot] == '.'
    && AllAddressChars(s[..at])
    && AllAddressChars(s[at + 1..dot])
    && AllLetters(s[dot + 1..])
  }

  /** The language of `/^[\w.-]+@[\w.-]+\.[a-zA-Z]{2,}$/`: some split matches. */
  ghost predicate MatchesEmailPattern(s: string) {
    exists at: nat, dot: nat :: EmailSplitAt(s, at, dot)
  }

  /** Index of the first `c` in `s`. */
  function IndexOf(s: string, c: char): (r: Option<nat>)
    ensures r.Some? ==> r.value < |s| && s[r.value] == c
    ensures r.Some? ==> forall k :: 0 <= k < r.value ==> s[k] != c
    ensures r.None? ==> c !in s
  {
    if s == [] then None
    else if s[0] == c then Some(0)
    else match IndexOf(s[1..], c)
      case None => None
      case Some(k) => Some(k + 1)
  }

  /** Index of the last `c` in `s`. */
  function LastIndexOf(s: string, c: char): (r: Option<nat>)
    ensures r.Some? ==> r.value < |s| && s[r.value] == c
    ensures r.Some? ==> forall k :: r.value < k < |s| ==> s[k] != c
    ensures r.None? ==> c !in s
  {
    if s == [] then None
    else if s[|s| - 1] == c then Some(|s| - 1)
    else LastIndexOf(s[..|s| - 1], c)
  }

  /**
   * The email pattern decided without backtracking: the top-level part has
   * no dot, so its dot is the last one, and the local part has no '@', so
   * its '@' is the first one.
   */
  function IsValidEmail(s: string): (valid: bool)
    ensures valid ==> IsTrimmed(s) && '@' in s && '.' in s
  {
    match LastIndexOf(s, '.')
    case None => false
    case Some(dot) =>
      match IndexOf(s[..dot], '@')
      case None => false
      case Some(at) => EmailSplitAt(s, at, dot)
  }

  /** The dot before the top-level part is the last dot of the string. */
  lemma TopLevelDotIsLast(s: string, at: nat, dot: nat)
    requires EmailSplitAt(s, at, dot)
    ensures LastIndexOf(s, '.') == Some(dot)
  {
    forall k | dot < k < |s|
      ensures s[k] != '.'
    {
      assert s[k] == s[dot + 1..][k - dot - 1];
    }
  }

  /** The '@' after the local part is the first '@' in front of the top-level dot. */
  lemma LocalPartEndsAtFirstAt(s: string, at: nat, dot: nat)
    requires EmailSplitAt(s, at, dot)
    ensures IndexOf(s[..dot], '@') == Some(at)
  {
    forall k | 0 <= k < at
      ensures s[..dot][k] != '@'
    {
      assert s[..dot][k] == s[..at][k];
    }
    assert s[..dot][at] == '@';
  }

  /** The deterministic check accepts exactly the strings the pattern matches. */
  lemma IsValidEmailMatchesPattern(s: string)
    ensures IsValidEmail(s) <==> MatchesEmailPattern(s)
  {
    if IsValidEmail(s) {
      var dot := LastIndexOf(s, '.').value;
      var at := IndexOf(s[..dot], '@').value;
      assert EmailSplitAt(s, at, dot);
    }
    if MatchesEmailPattern(s) {
      var at: nat, dot: nat :| EmailSplitAt(s, at, dot);
      TopLevelDotIsLast(s, at, dot);
      LocalPartEndsAtFirstAt(s, at, dot);
    }
  }

  /** An address needs an '@'. */
  lemma RejectsWithoutAt(s: string)
    requires '@' !in s
    ensures !IsValidEmail(s)
  {
    var last := LastIndexOf(s, '.');
    if last.Some? {
      assert forall k :: 0 <= k < last.value ==> s[..last.value][k] == s[k];
    }
  }

  /** An address needs a dot. */
  lemma RejectsWithoutDot(s: string)
    requires '.' !in s
    ensures !IsValidEmail(s)
  {
  }

  /** An address cannot start with its '@'. */
  lemma RejectsEmptyLocalPart(s: string)
    requires |s| > 0 && s[0] == '@'
    ensures !IsValidEmail(s)
  {
    var last := LastIndexOf(s, '.');
    if last.Some? && last.value > 0 {
      assert s[..last.value][0] == '@';
    }
  }

  // ---------------------------------------------------------------------------
  // The ordered error list of the submit handler
  // ---------------------------------------------------------------------------

  const PhoneError := "Phone must be 10 digits."
  const EmailError := "Invalid email format."
  const ZipError := "Zip must be 5 digits."

  /** Position of a message in the fixed order phone, email, zip. */
  function MessageRank(m: string): nat {
    if m == PhoneError then 0 else if m == EmailError then 1 else 2
  }

  /**
   * The messages for every failing check, phone first, then email, then zip,
   * with no check skipped because an earlier one failed.
   */
  function ValidationErrors(phone: string, email: string, zip: string): (errors: seq<string>)
    ensures |errors| <= 3
    ensures PhoneError in errors <==> !IsValidPhone(phone)
    ensures EmailError in errors <==> !IsValidEmail(email)
    ensures ZipError in errors <==> !IsValidZip(zip)
    ensures forall i :: 0 <= i < |errors| ==> errors[i] in {PhoneError, EmailError, ZipError}
    ensures forall i, j :: 0 <= i < j < |errors| ==> MessageRank(errors[i]) < MessageRank(errors[j])
    ensures errors == [] <==> IsValidPhone(phone) && IsValidEmail(email) && IsValidZip(zip)
  {
    (if IsValidPhone(phone) then [] else [PhoneError])
    + (if IsValidEmail(email) then [] else [EmailError])
    + (if IsValidZip(zip) then [] else [ZipError])
  }

  // ---------------------------------------------------------------------------
  // Submissions and local storage
  // ---------------------------------------------------------------------------

  /** One accepted form submission; `id` is the millisecond clock reading at submit time. */
  datatype Submission = Submission(timestamp: string, phone: string, email: string, zip: string, id: nat)

  /**
   * What a local-storage entry holds once read with JSON.parse: an array of
   * submissions, the contacts-file object `{submissions: [...]}`, or any
   * other text, which stands for a string that JSON.parse rejects (the empty
   * string included).
   */
  datatype StoredValue =
    | SubmissionList(items: seq<Submission>)
    | ContactsFileData(submissions: seq<Submission>)
    | Text(text: string)

  type Storage = map<string, StoredValue>

  const SubmissionsKey := "contactSubmissions"
  const ContactsFileKey := "contactsFileData"
  const DownloadUrlKey := "contactsFileDownloadUrl"
  const ContactKeys: set<string> := {SubmissionsKey, ContactsFileKey, DownloadUrlKey}

  /**
   * `JSON.parse(localStorage.getItem('contactSubmissions') || '[]')` when it
   * yields an array; None when parsing throws or yields an object, which
   * makes a later `push` throw. A missing entry and the empty string, which
   * `||` replaces by '[]', read as the empty array.
   */
  function StoredSubmissions(store: Storage): (r: Option<seq<Submission>>)
    ensures SubmissionsKey !in store ==> r == Some([])
    ensures SubmissionsKey in store && store[SubmissionsKey].SubmissionList? ==> r == Some(store[SubmissionsKey].items)
  {
    if SubmissionsKey !in store then Some([])
    else match store[SubmissionsKey]
      case SubmissionList(items) => Some(items)
      case ContactsFileData(_) => None
      case Text(t) => if t == "" then Some([]) else None
  }

  /** getSavedSubmissions: the stored array, the empty one when none can be read. */
  function SavedSubmissions(store: Storage): (subs: seq<Submission>)
    ensures SubmissionsKey !in store ==> subs == []
    ensures SubmissionsKey in store && store[SubmissionsKey].SubmissionList? ==> subs == store[SubmissionsKey].items
    ensures subs != [] ==> SubmissionsKey in store && store[SubmissionsKey] == SubmissionList(subs)
  {
    StoredSubmissions(store).GetOr([])
  }

  /**
   * The storage after saveToLocalStorage(x): the submission is pushed onto
   * the stored array and written back; when the stored value is not an
   * array, the error is caught and nothing changes.
   */
  function AfterLocalSave(store: Storage, x: Submission): (r: Storage)
    ensures StoredSubmissions(store).Some? ==> SavedSubmissions(r) == SavedSubmissions(store) + [x]
    ensures StoredSubmissions(store).None? ==> r == store
    ensures r.Keys == store.Keys + (if StoredSubmissions(store).Some? then {SubmissionsKey} else {})
    ensures forall k :: k in store && k != SubmissionsKey ==> r[k] == store[k]
  {
    match StoredSubmissions(store)
    case Some(items) => store[SubmissionsKey := SubmissionList(items + [x])]
    case None => store
  }

  /** Saving a submission to local storage never alters earlier entries. */
  lemma LocalSaveKeepsEarlierEntries(store: Storage, x: Submission)
    ensures |SavedSubmissions(AfterLocalSave(store, x))| >= |SavedSubmissions(store)|
    ensures SavedSubmissions(store) <= SavedSubmissions(AfterLocalSave(store, x))
  {
  }

  /** What `fetch('contacts.json')` gave saveToContactsFile. */
  datatype ContactsFetch =
    | Unavailable                                  // network error, a response that is not OK, or a body that is not JSON
    | Fetched(submissions: Option<seq<Submission>>) // a JSON body; None when it has no `submissions` array

  /** The `contactsData.submissions` array before the push; None when it does not exist. */
  function FetchedSubmissions(fetch: ContactsFetch): Option<seq<Submission>> {
    match fetch
    case Unavailable => Some([])
    case Fetched(s) => s
  }

  /**
   * The storage after saveToContactsFile(x): the fetched file (or an empty
   * one) with `x` pushed is stored under 'contactsFileData' and the blob URL
   * under 'contactsFileDownloadUrl'. None when the push throws, which
   * saveToContactsFile passes on to its caller after changing nothing.
   * The copy already in local storage is not read.
   */
  function AfterContactsFileSave(store: Storage, fetch: ContactsFetch, x: Submission, url: string): (r: Option<Storage>)
    ensures r.None? <==> fetch.Fetched? && fetch.submissions.None?
    ensures r.Some? ==> r.value.Keys == store.Keys + {ContactsFileKey, DownloadUrlKey}
    ensures r.Some? ==> r.value[ContactsFileKey] == ContactsFileData(FetchedSubmissions(fetch).value + [x])
    ensures r.Some? ==> r.value[DownloadUrlKey] == Text(url)
    ensures r.Some? ==> forall k :: k in store && k !in {ContactsFileKey, DownloadUrlKey} ==> r.value[k] == store[k]
  {
    match FetchedSubmissions(fetch)
    case None => None
    case Some(items) =>
      Some(store[ContactsFileKey := ContactsFileData(items + [x])][DownloadUrlKey := Text(url)])
  }

  /** The submit handler's result shown to the user. */
  datatype SubmitOutcome =
    | Invalid(errors: seq<string>) // the error list, shown instead of saving
    | Submitted(id: nat)           // success message with the download button for this id
    | SubmitFailed                 // "Submission failed. Try again."

  // ---------------------------------------------------------------------------
  // Reading back: downloads
  // ---------------------------------------------------------------------------

  /** The character of one decimal digit. */
  function DigitChar(d: nat): (c: char)
    requires d < 10
    ensures IsDigit(c) && c as int - '0' as int == d
  {
    (d + '0' as int) as char
  }

  /** `n.toString()` for a non-negative integer: its decimal digits. */
  function DecimalString(n: nat): (s: string)
    ensures |s| >= 1 && AllDigits(s)
    ensures |s| == 1 <==> n < 10
  {
    if n < 10 then [DigitChar(n)] else DecimalString(n / 10) + [DigitChar(n % 10)]
  }

  /** The number a string of decimal digits denotes. */
  function DecimalValue(s: string): nat
    requires AllDigits(s)
  {
    if s == [] then 0 else 10 * DecimalValue(s[..|s| - 1]) + (s[|s| - 1] as int - '0' as int)
  }

  /** Reading back the decimal text of an id gives the id. */
  lemma {:induction false} DecimalRoundTrip(n: nat)
    ensures DecimalValue(DecimalString(n)) == n
  {
    if n >= 10 {
      DecimalRoundTrip(n / 10);
      var s := DecimalString(n);
      assert s[..|s| - 1] == DecimalString(n / 10);
    }
  }

  /** Two ids print the same only when they are equal. */
  lemma DecimalStringInjective(a: nat, b: nat)
    requires DecimalString(a) == DecimalString(b)
    ensures a == b
  {
    DecimalRoundTrip(a);
    DecimalRoundTrip(b);
  }

  /** `submissions.find(s => s.id.toString() === submissionId)` */
  function FindSubmission(subs: seq<Submission>, submissionId: string): (r: Option<Submission>)
    ensures r.Some? ==> exists i :: 0 <= i < |subs| && subs[i] == r.value && DecimalString(subs[i].id) == submissionId
                          && forall j :: 0 <= j < i ==> DecimalString(subs[j].id) != submissionId
    ensures r.None? ==> forall i :: 0 <= i < |subs| ==> DecimalString(subs[i].id) != submissionId
  {
    if subs == [] then None
    else if DecimalString(subs[0].id) == submissionId then Some(subs[0])
    else
      var r := FindSubmission(subs[1..], submissionId);
      assert forall i :: 1 <= i < |subs| ==> subs[i] == subs[1..][i - 1];
      r
  }

  /** downloadMySubmission: the submission to download, None for "Submission not found!". */
  function SubmissionToDownload(store: Storage, submissionId: string): (r: Option<Submission>)
    ensures r.Some? ==> r.value in SavedSubmissions(store) && DecimalString(r.value.id) == submissionId
    ensures r.None? <==> forall x :: x in SavedSubmissions(store) ==> DecimalString(x.id) != submissionId
  {
    FindSubmission(SavedSubmissions(store), submissionId)
  }

  /** Outcome of the two bulk-download buttons. */
  datatype Export =
    | NothingToExport                     // the "no submissions" alert, no file
    | Exported(submissions: seq<Submission>) // a file holding these submissions
    | ExportFailed                        // the stored value could not be read

  /** downloadAllSubmissions: refuses when no submission is saved. */
  function AllSubmissionsExport(store: Storage): (r: Export)
    ensures r.NothingToExport? <==> SavedSubmissions(store) == []
    ensures r.Exported? ==> r.submissions == SavedSubmissions(store) && |r.submissions| > 0
    ensures !r.ExportFailed?
  {
    var subs := SavedSubmissions(store);
    if subs == [] then NothingToExport else Exported(subs)
  }

  /**
   * downloadContactsFile: `JSON.parse(getItem('contactsFileData') || '{"submissions":[]}')`;
   * refuses when the submissions array is empty, fails when the stored text
   * does not parse or is an array (whose missing `submissions` has no length).
   */
  function ContactsFileExport(store: Storage): (r: Export)
    ensures ContactsFileKey !in store ==> r == NothingToExport
    ensures r.Exported? ==> ContactsFileKey in store && store[ContactsFileKey] == ContactsFileData(r.submissions)
                            && |r.submissions| > 0
    ensures ContactsFileKey in store && store[ContactsFileKey].ContactsFileData? ==>
              var subs := store[ContactsFileKey].submissions;
              r == if subs == [] then NothingToExport else Exported(subs)
    ensures r.ExportFailed? <==> ContactsFileKey in store && !store[ContactsFileKey].ContactsFileData?
                                 && store[ContactsFileKey] != Text("")
  {
    if ContactsFileKey !in store then NothingToExport
    else match store[ContactsFileKey]
      case ContactsFileData(subs) => if subs == [] then NothingToExport else Exported(subs)
      case SubmissionList(_) => ExportFailed
      case Text(t) => if t == "" then NothingToExport else ExportFailed
  }

  /** clearSavedSubmissions, once confirmed: the three keys of this page are removed. */
  function AfterClear(store: Storage): (r: Storage)
    ensures r.Keys == store.Keys - ContactKeys
    ensures forall k :: k in r ==> r[k] == store[k]
    ensures SavedSubmissions(r) == [] && AllSubmissionsExport(r) == NothingToExport
    ensures ContactsFileExport(r) == NothingToExport
  {
    store - ContactKeys
  }

  // ---------------------------------------------------------------------------
  // The page
  // ---------------------------------------------------------------------------

  /** The submit handler's error list, built by pushing one message per failing check. */
  method CollectErrors(phone: string, email: string, zip: string) returns (errors: seq<string>)
    ensures errors == ValidationErrors(phone, email, zip)
  {
    errors := [];
    if !IsValidPhone(phone) {
      errors := errors + [PhoneError];
    }
    if !IsValidEmail(email) {
      errors := errors + [EmailError];
    }
    if !IsValidZip(zip) {
      errors := errors + [ZipError];
    }
  }

  /** The contact form with its validation flag and the browser's local storage. */
  class ContactForm {
    /** localStorage */
    var storage: Storage
    /** The `validated` entry the page keeps for this form. */
    var validated: bool

    constructor(store: Storage)
      ensures storage == store && !validated
    {
      storage := store;
      validated := false;
    }

    /** saveToLocalStorage */
    method SaveToLocalStorage(x: Submission)
      modifies this`storage
      ensures storage == AfterLocalSave(old(storage), x)
    {
      var existing := StoredSubmissions(storage);
      if existing.Some? {
        var items := existing.value;
        items := items + [x];
        storage := storage[SubmissionsKey := SubmissionList(items)];
      }
    }

    /** saveToContactsFile; `ok` is false when it throws. */
    method SaveToContactsFile(x: Submission, fetch: ContactsFetch, url: string) returns (ok: bool)
      modifies this`storage
      ensures ok == AfterContactsFileSave(old(storage), fetch, x, url).Some?
      ensures storage == AfterContactsFileSave(old(storage), fetch, x, url).GetOr(old(storage))
    {
      var contacts := FetchedSubmissions(fetch);
      if contacts.None? {
        return false;
      }
      var items := contacts.value + [x];
      storage := storage[ContactsFileKey := ContactsFileData(items)];
      storage := storage[DownloadUrlKey := Text(url)];
      ok := true;
    }

    /**
     * The submit handler, given the raw field values, the clock (`now`,
     * `timestamp`), what fetching contacts.json gave and the blob URL.
     */
    method Submit(phoneField: string, emailField: string, zipField: string,
                  now: nat, timestamp: string, fetch: ContactsFetch, url: string)
      returns (outcome: SubmitOutcome)
      modifies this
      ensures var errors := ValidationErrors(Trim(phoneField), Trim(emailField), Trim(zipField));
              && validated == (errors == [])
              && (errors != [] ==> outcome == Invalid(errors) && storage == old(storage))
      ensures var x := Submission(timestamp, Trim(phoneField), Trim(emailField), Trim(zipField), now);
              var saved := AfterLocalSave(old(storage), x);
              validated ==>
                match AfterContactsFileSave(saved, fetch, x, url)
                case Some(s) => outcome == Submitted(now) && storage == s
                case None => outcome == SubmitFailed && storage == saved
    {
      validated := false;
      var phone, email, zip := Trim(phoneField), Trim(emailField), Trim(zipField);
      var errors := CollectErrors(phone, email, zip);
      validated := |errors| == 0;
      if |errors| > 0 {
        return Invalid(errors);
      }
      var x := Submission(timestamp, phone, email, zip, now);
      SaveToLocalStorage(x);
      var ok := SaveToContactsFile(x, fetch, url);
      outcome := if ok then Submitted(now) else SubmitFailed;
    }

    /** clearSavedSubmissions; `confirmed` is the answer to the confirmation prompt. */
    method ClearSavedSubmissions(confirmed: bool)
      modifies this`storage
      ensures storage == if confirmed then AfterClear(old(storage)) else old(storage)
    {
      if confirmed {
        storage := storage - {SubmissionsKey};
        storage := storage - {ContactsFileKey};
        storage := storage - {DownloadUrlKey};
      }
    }
  }

  // ---------------------------------------------------------------------------
  // Properties across operations
  // ---------------------------------------------------------------------------

  /**
   * The "Download My Submission" button of a successful submit finds that
   * very submission, provided no earlier saved submission carries the same
   * clock reading as id.
   */
  lemma {:induction false} DownloadFindsNewSubmission(store: Storage, x: Submission)
    requires StoredSubmissions(store).Some?
    requires forall s :: s in SavedSubmissions(store) ==> s.id != x.id
    ensures SubmissionToDownload(AfterLocalSave(store, x), DecimalString(x.id)) == Some(x)
  {
    var subs := SavedSubmissions(AfterLocalSave(store, x));
    var found := FindSubmission(subs, DecimalString(x.id));
    assert subs[|subs| - 1] == x;
    assert found.Some?;
    var i :| 0 <= i < |subs| && subs[i] == found.value && DecimalString(subs[i].id) == DecimalString(x.id);
    DecimalStringInjective(subs[i].id, x.id);
    assert forall j :: 0 <= j < |subs| - 1 ==> subs[j] in SavedSubmissions(store);
  }

  /** The contacts-file save leaves the submissions array as it is. */
  lemma ContactsFileSaveKeepsSubmissions(store: Storage, fetch: ContactsFetch, x: Submission, url: string)
    requires AfterContactsFileSave(store, fetch, x, url).Some?
    ensures SavedSubmissions(AfterContactsFileSave(store, fetch, x, url).value) == SavedSubmissions(store)
  {
  }

  /**
   * The contacts file starts from contacts.json, not from the copy saved
   * before: when contacts.json cannot be fetched, a second submission leaves
   * only itself in the file.
   */
  lemma ContactsFileKeepsOnlyLatestWhenUnfetched(store: Storage, x: Submission, y: Submission, u1: string, u2: string)
    ensures AfterContactsFileSave(store, Unavailable, x, u1).Some?
    ensures AfterContactsFileSave(AfterContactsFileSave(store, Unavailable, x, u1).value, Unavailable, y, u2)
            == Some(store[ContactsFileKey := ContactsFileData([y])][DownloadUrlKey := Text(u2)])
  {
    var first := store[ContactsFileKey := ContactsFileData([x])][DownloadUrlKey := Text(u1)];
    assert [] + [x] == [x] && [] + [y] == [y];
    var twice := first[ContactsFileKey := ContactsFileData([y])][DownloadUrlKey := Text(u2)];
    assert twice == store[ContactsFileKey := ContactsFileData([y])][DownloadUrlKey := Text(u2)];
  }

  // ---------------------------------------------------------------------------
  // The cases of the page's test suite
  // ---------------------------------------------------------------------------

  lemma PhoneExamples()
    ensures IsValidPhone("1234567890")
    ensures !IsValidPhone("123456789") && !IsValidPhone("12345678901")
    ensures !IsValidPhone("abcdefghij") && !IsValidPhone("123-456-7890")
  {
    assert !IsDigit("abcdefghij"[0]);
  }

  lemma ZipExamples()
    ensures IsValidZip("12345")
    ensures !IsValidZip("1234") && !IsValidZip("123456")
    ensures !IsValidZip("abcde") && !IsValidZip("12-345")
  {
    assert !IsDigit("abcde"[0]);
  }

  lemma EmailExampleAccepted()
    ensures IsValidEmail("test@example.com")
  {
    var s := "test@example.com";
    TopLevelDotIsLast(s, 4, 12);
    LocalPartEndsAtFirstAt(s, 4, 12);
  }

  lemma EmailExampleWithDottedParts()
    ensures IsValidEmail("user.name@domain.co.uk")
  {
    var s := "user.name@domain.co.uk";
    TopLevelDotIsLast(s, 9, 19);
    LocalPartEndsAtFirstAt(s, 9, 19);
  }

  lemma EmailExamplesRejected()
    ensures !IsValidEmail("invalid-email") && !IsValidEmail("@example.com")
    ensures !IsValidEmail("test@") && !IsValidEmail("test.example.com")
  {
    RejectsWithoutAt("invalid-email");
    RejectsEmptyLocalPart("@example.com");
    RejectsWithoutDot("test@");
    RejectsWithoutAt("test.example.com");
  }

  /** Every failing field reports, in order. */
  lemma AllThreeFieldsInvalid()
    ensures ValidationErrors("123", "bad", "12") == [PhoneError, EmailError, ZipError]
  {
    assert !IsValidEmail("bad");
  }
}
