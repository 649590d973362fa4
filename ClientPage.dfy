/** The list page: the PIN gate, logout, the client-side search that derives
    the shown list `emails` from the master list `allEmails`, the checks made
    before an address is submitted, and the text and file name of an export. */
module ClientPage {
  import opened Text
  import opened Wrappers
  import opened EmailFormat
  import EmailsRoute

  /** An entry as the page receives it from GET /api/emails. */
  datatype EmailData = EmailData(id: int, email: string, createdAt: string)

  const CorrectPin := "230299"
  const WrongPin := "PIN salah! Silakan coba lagi."
  const EmptyEmail := "Email tidak boleh kosong"
  const InvalidEmail := "Format email tidak valid"
  const PlainExportName := "email-list.txt"
  const SearchExportPrefix := "email-list-search-"
  const ExportExtension := ".txt"

  /** The search test: the lower-cased address contains the lower-cased
      query. The empty query matches every entry, and no query longer than
      the address matches it. */
  predicate SearchMatches(item: EmailData, query: string)
    ensures query == [] ==> SearchMatches(item, query)
    ensures SearchMatches(item, query) ==> |query| <= |item.email|
  {
    assert OccursAt(ToLower(item.email), ToLower(query), 0) <== query == [];
    Includes(ToLower(item.email), ToLower(query))
  }

  /** `a` is `b` with some entries left out, the rest kept in order. */
  ghost predicate IsSubsequence<T>(a: seq<T>, b: seq<T>)
    decreases |b|
  {
    if b == [] then a == []
    else (a != [] && a[0] == b[0] && IsSubsequence(a[1..], b[1..])) || IsSubsequence(a, b[1..])
  }

  /** `allEmails.filter(...)`: the entries the query matches, in master order,
      each as often as it occurs there. */
  function FilterView(all: seq<EmailData>, query: string): (view: seq<EmailData>)
    ensures IsSubsequence(view, all) && |view| <= |all|
    ensures forall e :: multiset(view)[e] == if SearchMatches(e, query) then multiset(all)[e] else 0
  {
    if all == [] then []
    else
      assert all == [all[0]] + all[1..];
      var rest := FilterView(all[1..], query);
      if SearchMatches(all[0], query) then [all[0]] + rest else rest
  }

  /** The list `handleSearch(query)` shows: never longer than the master
      list, and no entry shown more often than it occurs there. */
  function SearchView(all: seq<EmailData>, query: string): (view: seq<EmailData>)
    ensures |view| <= |all|
    ensures forall e :: multiset(view)[e] <= multiset(all)[e]
  {
    if Trim(query) == [] then all else FilterView(all, query)
  }

  /** A blank query shows the master list as it is; any other query shows
      exactly the matching entries, in master order. */
  lemma SearchViewSpec(all: seq<EmailData>, query: string)
    ensures Blank(query) ==> SearchView(all, query) == all
    ensures !Blank(query) ==> IsSubsequence(SearchView(all, query), all)
    ensures !Blank(query) ==> forall e ::
      e in SearchView(all, query) <==> e in all && SearchMatches(e, query)
  {
    TrimEmptyIffBlank(query);
    if !Blank(query) {
      var view := FilterView(all, query);
      forall e ensures e in view <==> e in all && SearchMatches(e, query) {
        assert e in view <==> multiset(view)[e] > 0;
        assert e in all <==> multiset(all)[e] > 0;
      }
    }
  }

  /** The search is case-insensitive on both sides. */
  lemma SearchIgnoresCase(item: EmailData, query: string)
    ensures SearchMatches(item, query) == SearchMatches(item.(email := ToLower(item.email)), ToLower(query))
  {
    ToLowerIdempotent(item.email);
    ToLowerIdempotent(query);
  }

  /** The query is matched untrimmed: a query holding whitespace finds no
      entry whose address has none. */
  lemma UntrimmedQueryMatches(item: EmailData, query: string, k: nat)
    requires k < |query| && IsSpace(query[k])
    requires NoSpace(item.email)
    ensures !SearchMatches(item, query)
  {
    var s, sub := ToLower(item.email), ToLower(query);
    forall i ensures !OccursAt(s, sub, i) {
      if 0 <= i && i + |sub| <= |s| {
        assert s[i..i + |sub|][k] == s[i + k];
      }
    }
  }

  /** The outcome of the checks `handleSubmit` makes before any request. */
  datatype SubmitDecision = Reject(message: string) | Send(email: string)

  /** The checks of `handleSubmit`: what is sent is a valid address that
      trimming and lower-casing leave unchanged; a rejection carries one of
      the two messages. */
  function DecideSubmit(input: string): (d: SubmitDecision)
    ensures d.Send? ==> ValidateEmail(d.email) && Trim(d.email) == d.email && ToLower(d.email) == d.email
    ensures d.Reject? ==> d.message == EmptyEmail || d.message == InvalidEmail
  {
    var normalized := ToLower(Trim(input));
    if normalized == [] then Reject(EmptyEmail)
    else if !ValidateEmail(normalized) then Reject(InvalidEmail)
    else
      ToLowerIdempotent(Trim(input));
      ValidEmailIsTrimmed(normalized);
      Send(normalized)
  }

  /** A blank input is rejected as empty before validation; any other input
      is sent exactly when its trimmed, lower-cased form matches the pattern,
      and otherwise rejected as invalid. */
  lemma DecideSubmitCases(input: string)
    ensures DecideSubmit(input) == Reject(EmptyEmail) <==> Blank(input)
    ensures DecideSubmit(input).Send? <==> MatchesPattern(ToLower(Trim(input)))
    ensures DecideSubmit(input) == Reject(InvalidEmail) <==>
      !Blank(input) && !MatchesPattern(ToLower(Trim(input)))
    ensures DecideSubmit(input).Send? ==> DecideSubmit(input).email == ToLower(Trim(input))
  {
    TrimEmptyIffBlank(input);
    ValidateEmailMatchesPattern(ToLower(Trim(input)));
  }

  /** What the page sends is already in normal form: submitting it again sends
      the same value, and the route stores it without change. */
  lemma SubmittedIsNormal(input: string)
    requires DecideSubmit(input).Send?
    ensures var e := DecideSubmit(input).email;
      DecideSubmit(e) == Send(e) && EmailsRoute.StoredForm(e) == e
  {
    var e := DecideSubmit(input).email;
    ValidEmailIsTrimmed(e);
    ToLowerIdempotent(Trim(input));
    TrimLowerCommute(e);
  }

  /** The addresses of a list, in its order. */
  function EmailsOf(view: seq<EmailData>): seq<string> {
    seq(|view|, i requires 0 <= i < |view| => view[i].email)
  }

  /** `emails.map(item => item.email).join('\n')`: empty for an empty list,
      otherwise the addresses' lengths plus one separator between each pair. */
  function ExportContent(view: seq<EmailData>): (c: string)
    ensures view == [] ==> c == []
    ensures view != [] ==> |c| == TotalLength(EmailsOf(view)) + |view| - 1
  {
    JoinLength(EmailsOf(view), '\n');
    Join(EmailsOf(view), '\n')
  }

  /** The export lists the shown addresses in order, one per line: splitting
      it at the line breaks gives them back. */
  lemma ExportLines(view: seq<EmailData>)
    requires |view| >= 1
    requires forall k :: 0 <= k < |view| ==> '\n' !in view[k].email
    ensures Split(ExportContent(view), '\n') == EmailsOf(view)
  {
    SplitJoin(EmailsOf(view), '\n');
  }

  /** No newline follows the last address. */
  lemma ExportNoTrailingNewline(view: seq<EmailData>)
    requires |view| >= 1
    requires view[|view| - 1].email != [] && '\n' !in view[|view| - 1].email
    ensures var c := ExportContent(view); c != [] && c[|c| - 1] != '\n'
  {
    var xs := EmailsOf(view);
    var last := xs[|xs| - 1];
    JoinEndsWithLast(xs, '\n');
    var c := ExportContent(view);
    assert c[|c| - 1] == c[|c| - |last|..][|last| - 1];
    assert last[|last| - 1] in last;
  }

  /** `query.replace(/[^a-zA-Z0-9]/g, '_')`: the same length, letters and
      digits kept in place, and nothing but letters, digits and `_` left. */
  function Sanitize(query: string): (r: string)
    ensures |r| == |query|
    ensures forall i :: 0 <= i < |query| ==> IsAlphanumeric(query[i]) ==> r[i] == query[i]
    ensures forall i :: 0 <= i < |query| ==> !IsAlphanumeric(query[i]) ==> r[i] == '_'
  {
    seq(|query|, i requires 0 <= i < |query| => if IsAlphanumeric(query[i]) then query[i] else '_')
  }

  /** Sanitising is idempotent. */
  lemma SanitizeSpec(query: string)
    ensures Sanitize(Sanitize(query)) == Sanitize(query)
  {
  }

  /** The name given to the downloaded file: the plain name exactly when
      there is no query, otherwise one that grows with the query. */
  function ExportFilename(query: string): (name: string)
    ensures name == PlainExportName <==> query == ""
    ensures query != "" ==> |name| == |SearchExportPrefix| + |query| + |ExportExtension|
  {
    if query == "" then PlainExportName
    else SearchExportPrefix + Sanitize(query) + ExportExtension
  }

  predicate IsFilenameChar(c: char) {
    IsAlphanumeric(c) || c == '_' || c == '-' || c == '.'
  }

  /** With a query the name carries the sanitised query after the prefix.
      It starts with `email-list-search-` and ends with `.txt`. Either way
      only letters, digits, `_`, `-` and `.` occur in it. */
  lemma ExportFilenameSpec(query: string)
    ensures query != "" ==>
      && ExportFilename(query)[..|SearchExportPrefix|] == SearchExportPrefix
      && ExportFilename(query)[|ExportFilename(query)| - |ExportExtension|..] == ExportExtension
    ensures query != "" ==>
      ExportFilename(query)[|SearchExportPrefix|..|SearchExportPrefix| + |query|] == Sanitize(query)
    ensures forall i :: 0 <= i < |ExportFilename(query)| ==> IsFilenameChar(ExportFilename(query)[i])
  {
    var name := ExportFilename(query);
    if query != "" {
      assert |name| == |SearchExportPrefix| + |query| + |ExportExtension|;
      forall i | 0 <= i < |name| ensures IsFilenameChar(name[i]) {
        if i < |SearchExportPrefix| {
          assert name[i] == SearchExportPrefix[i];
        } else if i < |SearchExportPrefix| + |query| {
          assert name[i] == Sanitize(query)[i - |SearchExportPrefix|];
        } else {
          assert name[i] == ExportExtension[i - |SearchExportPrefix| - |query|];
        }
      }
    }
  }

  /** The page component's state. */
  class HomePage {
    var isAuthenticated: bool
    var pin: string
    var pinError: string
    var email: string
    var emails: seq<EmailData>
    var allEmails: seq<EmailData>
    var searchQuery: string
    var message: string
    var dbInitialized: bool

    /** The `useState` initial values. */
    constructor ()
      ensures !isAuthenticated && pin == "" && pinError == "" && email == ""
      ensures emails == [] && allEmails == [] && searchQuery == "" && message == ""
      ensures !dbInitialized
    {
      isAuthenticated, pin, pinError, email := false, "", "", "";
      emails, allEmails, searchQuery, message := [], [], "", "";
      dbInitialized := false;
    }

    /** `handlePinSubmit`: the right PIN signs in and clears the error, a
        wrong one sets the error; the field is emptied either way. */
    method HandlePinSubmit()
      modifies this`isAuthenticated, this`pin, this`pinError
      ensures old(pin) == CorrectPin ==> isAuthenticated && pinError == ""
      ensures old(pin) != CorrectPin ==>
        isAuthenticated == old(isAuthenticated) && pinError == WrongPin && pinError != ""
      ensures pin == ""
    {
      if pin == CorrectPin {
        isAuthenticated := true;
        pinError := "";
        pin := "";
      } else {
        pinError := WrongPin;
        pin := "";
      }
    }

    /** `handleLogout`: back to the signed-out, empty state. */
    method HandleLogout()
      modifies this
      ensures !isAuthenticated && pin == "" && pinError == "" && email == ""
      ensures emails == [] && allEmails == [] && searchQuery == "" && message == ""
      ensures !dbInitialized
    {
      isAuthenticated := false;
      pin := "";
      pinError := "";
      email := "";
      emails := [];
      allEmails := [];
      searchQuery := "";
      message := "";
      dbInitialized := false;
    }

    /** `handleSearch(query)`: remembers the query and shows what it selects
        from the master list. */
    method HandleSearch(query: string)
      modifies this`searchQuery, this`emails
      ensures searchQuery == query
      ensures emails == SearchView(allEmails, query)
    {
      searchQuery := query;
      emails := SearchView(allEmails, query);
    }

    /** `clearSearch`: no query, the whole master list shown; calling it again
        changes nothing. */
    method ClearSearch()
      modifies this`searchQuery, this`emails
      ensures searchQuery == "" && emails == allEmails
      ensures old(searchQuery) == "" && old(emails) == allEmails ==> emails == old(emails)
    {
      searchQuery := "";
      emails := allEmails;
    }

    /** The checks of `handleSubmit`: a rejected input sets the message and
        yields no request; an accepted one yields the value to POST. */
    method HandleSubmit() returns (request: Option<string>)
      modifies this`message
      ensures DecideSubmit(email).Reject? ==> request == None && message == DecideSubmit(email).message
      ensures DecideSubmit(email).Send? ==> request == Some(DecideSubmit(email).email) && message == old(message)
    {
      match DecideSubmit(email)
      case Reject(text) =>
        message := text;
        request := None;
      case Send(normalized) =>
        request := Some(normalized);
    }

    /** `handleExport`: the text and the file name of the download. */
    method HandleExport() returns (content: string, filename: string)
      ensures content == ExportContent(emails)
      ensures filename == ExportFilename(searchQuery)
    {
      content := ExportContent(emails);
      filename := ExportFilename(searchQuery);
    }
  }
}
