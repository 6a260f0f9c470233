/** The public submission form of a demand: per-field cleaning, then the
    form-wide check that refuses a demand too close to a recent one. */
module Forms {
  import opened Settings
  import opened Models

  /** What the browser posts. `directory` is None when no valid choice was
      posted; `photo` is the stored name of the uploaded image, None when no
      file came with the request. */
  datatype Submission = Submission(
    directory: Option<DirId>,
    name: string,
    firstName: string,
    email: string,
    photo: Option<string>)

  datatype FormError =
    | DirectoryError
    | NameError
    | FirstNameError
    | EmailError
    | PhotoError
    | DuplicateDemandError

  // ---------------------------------------------------------------------------
  // Text fields

  /** The whitespace a text field trims: space and the ASCII controls from
      tab to carriage return. */
  predicate IsSpace(c: char) {
    c == ' ' || c == '\t' || c == '\n' || c == '\U{000B}' || c == '\U{000C}' || c == '\r'
  }

  function StripLeft(s: string): string {
    if s != [] && IsSpace(s[0]) then StripLeft(s[1..]) else s
  }

  function StripRight(s: string): string {
    if s != [] && IsSpace(s[|s| - 1]) then StripRight(s[..|s| - 1]) else s
  }

  /** Only whitespace is cut from the front, up to the first other
      character. */
  lemma {:induction false} StripLeftCutsSpace(s: string)
    ensures var r := StripLeft(s);
            && |r| <= |s| && r == s[|s| - |r|..]
            && (forall k :: 0 <= k < |s| - |r| ==> IsSpace(s[k]))
            && (r != [] ==> !IsSpace(r[0]))
  {
    if s != [] && IsSpace(s[0]) {
      StripLeftCutsSpace(s[1..]);
      var r := StripLeft(s);
      assert r == s[1..][|s| - 1 - |r|..];
      forall k | 1 <= k < |s| - |r| ensures IsSpace(s[k]) {
        assert s[k] == s[1..][k - 1];
      }
    }
  }

  /** Only whitespace is cut from the back, down to the last other
      character. */
  lemma {:induction false} StripRightCutsSpace(s: string)
    ensures var r := StripRight(s);
            && |r| <= |s| && r == s[..|r|]
            && (forall k :: |r| <= k < |s| ==> IsSpace(s[k]))
            && (r != [] ==> !IsSpace(r[|r| - 1]))
  {
    if s != [] && IsSpace(s[|s| - 1]) {
      StripRightCutsSpace(s[..|s| - 1]);
      var r := StripRight(s);
      assert r == s[..|s| - 1][..|r|];
      forall k | |r| <= k < |s| - 1 ensures IsSpace(s[k]) {
        assert s[k] == s[..|s| - 1][k];
      }
    }
  }

  /** The value a text field cleans its input to. */
  function Strip(s: string): string {
    StripRight(StripLeft(s))
  }

  /** The cleaned value is the piece of the input left after cutting only
      whitespace from either end, and neither starts nor ends with
      whitespace. */
  lemma StripCutsOnlySpace(s: string)
    ensures var r := Strip(s);
            var i := |s| - |StripLeft(s)|;
            && 0 <= i && i + |r| <= |s| && r == s[i..i + |r|]
            && (forall k :: 0 <= k < i ==> IsSpace(s[k]))
            && (forall k :: i + |r| <= k < |s| ==> IsSpace(s[k]))
            && (r != [] ==> !IsSpace(r[0]) && !IsSpace(r[|r| - 1]))
  {
    var l := StripLeft(s);
    var r := StripRight(l);
    var i := |s| - |l|;
    StripLeftCutsSpace(s);
    StripRightCutsSpace(l);
    assert r == l[..|r|];
    assert r == s[i..i + |r|];
    forall k | i + |r| <= k < |s| ensures IsSpace(s[k]) {
      assert s[k] == l[k - i];
    }
    if r != [] {
      assert r[0] == l[0];
    }
  }

  /** Cleaning a cleaned value changes nothing. */
  lemma StripIdempotent(s: string)
    ensures Strip(Strip(s)) == Strip(s)
  {
    var r := Strip(s);
    StripCutsOnlySpace(s);
    assert StripLeft(r) == r;
    assert StripRight(r) == r;
  }

  /** A required text field of at most MaxFieldLength characters, which
      like every text field of the form refuses the null character: its
      value, once cleaned, when it is acceptable. */
  function CleanText(s: string): (r: Option<string>)
    ensures r.Some? <==> Strip(s) != [] && |Strip(s)| <= MaxFieldLength && '\0' !in Strip(s)
    ensures r.Some? ==> r.value == Strip(s)
  {
    var v := Strip(s);
    if v != [] && |v| <= MaxFieldLength && '\0' !in v then Some(v) else None
  }

  /** The e-mail field: a text field whose cleaned value the address
      validator `emailOk` also accepts. */
  function CleanEmail(s: string, emailOk: string -> bool): (r: Option<string>)
    ensures r.Some? <==> CleanText(s).Some? && emailOk(Strip(s))
    ensures r.Some? ==> r.value == Strip(s)
  {
    match CleanText(s)
    case Some(v) => if emailOk(v) then Some(v) else None
    case None => None
  }

  /** The directory choice lists only the visible directories. */
  function CleanDirectory(s: Store, dir: Option<DirId>): (r: Option<DirId>)
    ensures r.Some? <==> dir.Some? && dir.value in s.dirs && s.dirs[dir.value].isVisible
    ensures r.Some? ==> r == dir
  {
    if dir.Some? && dir.value in s.dirs && s.dirs[dir.value].isVisible then dir else None
  }

  // ---------------------------------------------------------------------------
  // The form-wide check

  /** A demand made within the last MIN_TIME_BETWEEN_DEMANDS minutes. */
  predicate Recent(cfg: Config, now: Time, d: Demand) {
    d.date >= now - cfg.minTimeBetweenDemands * SecondsPerMinute
  }

  /** A stored demand the form-wide check finds: same cleaned name or same
      cleaned e-mail, in the chosen directory, made recently. A field that
      failed cleaning has no value and matches no row. */
  predicate SameDemand(cfg: Config, s: Store, now: Time, name: Option<string>, email: Option<string>,
                       dir: Option<DirId>, id: DemandId) {
    && id in s.demands
    && (Some(s.demands[id].name) == name || Some(s.demands[id].email) == email)
    && Recent(cfg, now, s.demands[id])
    && Some(s.demands[id].directory) == dir
  }

  function SameDemands(cfg: Config, s: Store, now: Time, name: Option<string>, email: Option<string>,
                       dir: Option<DirId>): set<DemandId>
  {
    set id | id in s.demands && SameDemand(cfg, s, now, name, email, dir, id)
  }

  /** The values the fields cleaned to; None for a field that failed. */
  datatype Cleaned = Cleaned(
    directory: Option<DirId>,
    name: Option<string>,
    firstName: Option<string>,
    email: Option<string>,
    photo: Option<string>)

  function Clean(s: Store, sub: Submission, emailOk: string -> bool): Cleaned {
    Cleaned(CleanDirectory(s, sub.directory), CleanText(sub.name), CleanText(sub.firstName),
            CleanEmail(sub.email, emailOk), sub.photo)
  }

  /** The errors for the cleaned values, given whether the form-wide check
      found a same demand. */
  function ErrorsOf(c: Cleaned, duplicate: bool): (r: set<FormError>)
    ensures DirectoryError in r <==> c.directory.None?
    ensures NameError in r <==> c.name.None?
    ensures FirstNameError in r <==> c.firstName.None?
    ensures EmailError in r <==> c.email.None?
    ensures PhotoError in r <==> c.photo.None?
    ensures DuplicateDemandError in r <==> duplicate
  {
    (if c.directory.None? then {DirectoryError} else {})
    + (if c.name.None? then {NameError} else {})
    + (if c.firstName.None? then {FirstNameError} else {})
    + (if c.email.None? then {EmailError} else {})
    + (if c.photo.None? then {PhotoError} else {})
    + (if duplicate then {DuplicateDemandError} else {})
  }

  /** `DemandForm.is_valid`: every error the form reports. The form-wide
      check runs even when fields fail, on the values that were cleaned. */
  function Errors(cfg: Config, s: Store, sub: Submission, now: Time, emailOk: string -> bool): (r: set<FormError>)
    ensures DirectoryError in r <==> CleanDirectory(s, sub.directory).None?
    ensures NameError in r <==> CleanText(sub.name).None?
    ensures FirstNameError in r <==> CleanText(sub.firstName).None?
    ensures EmailError in r <==> CleanEmail(sub.email, emailOk).None?
    ensures PhotoError in r <==> sub.photo.None?
  {
    var c := Clean(s, sub, emailOk);
    ErrorsOf(c, SameDemands(cfg, s, now, c.name, c.email, c.directory) != {})
  }

  /** The form-wide error is reported exactly when some stored demand has the
      cleaned name or the cleaned e-mail, is in the chosen directory and is
      recent. */
  lemma DuplicateIffSameDemand(cfg: Config, s: Store, sub: Submission, now: Time, emailOk: string -> bool)
    ensures DuplicateDemandError in Errors(cfg, s, sub, now, emailOk) <==>
              exists id :: SameDemand(cfg, s, now, CleanText(sub.name), CleanEmail(sub.email, emailOk),
                                      CleanDirectory(s, sub.directory), id)
  {
    var c := Clean(s, sub, emailOk);
    var same := SameDemands(cfg, s, now, c.name, c.email, c.directory);
    assert DuplicateDemandError in Errors(cfg, s, sub, now, emailOk) <==> same != {};
    if same != {} {
      var id :| id in same;
      assert SameDemand(cfg, s, now, c.name, c.email, c.directory, id);
    }
    if exists id :: SameDemand(cfg, s, now, c.name, c.email, c.directory, id) {
      var id :| SameDemand(cfg, s, now, c.name, c.email, c.directory, id);
      assert id in same;
    }
  }

  predicate IsValid(cfg: Config, s: Store, sub: Submission, now: Time, emailOk: string -> bool) {
    Errors(cfg, s, sub, now, emailOk) == {}
  }

  // ---------------------------------------------------------------------------
  // Properties

  /** What an accepted submission carries: a visible directory, an uploaded
      photo, and cleaned text fields that are non-empty and short enough. */
  lemma ValidSubmissionShape(cfg: Config, s: Store, sub: Submission, now: Time, emailOk: string -> bool)
    requires IsValid(cfg, s, sub, now, emailOk)
    ensures sub.directory.Some? && sub.directory.value in s.dirs && s.dirs[sub.directory.value].isVisible
    ensures sub.photo.Some?
    ensures Strip(sub.name) != [] && |Strip(sub.name)| <= MaxFieldLength && '\0' !in Strip(sub.name)
    ensures Strip(sub.firstName) != [] && |Strip(sub.firstName)| <= MaxFieldLength && '\0' !in Strip(sub.firstName)
    ensures Strip(sub.email) != [] && |Strip(sub.email)| <= MaxFieldLength && '\0' !in Strip(sub.email)
    ensures emailOk(Strip(sub.email))
  {
    assert DirectoryError !in Errors(cfg, s, sub, now, emailOk);
    assert NameError !in Errors(cfg, s, sub, now, emailOk);
    assert FirstNameError !in Errors(cfg, s, sub, now, emailOk);
    assert EmailError !in Errors(cfg, s, sub, now, emailOk);
    assert PhotoError !in Errors(cfg, s, sub, now, emailOk);
  }

  /** A recent demand in the same directory under the same name refuses the
      submission, whatever e-mail either carries. */
  lemma SameNameRecentlyIsDuplicate(cfg: Config, s: Store, sub: Submission, now: Time, emailOk: string -> bool,
                                    id: DemandId)
    requires id in s.demands && Recent(cfg, now, s.demands[id])
    requires CleanDirectory(s, sub.directory) == Some(s.demands[id].directory)
    requires CleanText(sub.name) == Some(s.demands[id].name)
    ensures DuplicateDemandError in Errors(cfg, s, sub, now, emailOk)
    ensures !IsValid(cfg, s, sub, now, emailOk)
  {
    DuplicateIffSameDemand(cfg, s, sub, now, emailOk);
    assert SameDemand(cfg, s, now, CleanText(sub.name), CleanEmail(sub.email, emailOk),
                      CleanDirectory(s, sub.directory), id);
  }

  /** A recent demand in the same directory with the same e-mail refuses the
      submission, whatever name either carries. */
  lemma SameEmailRecentlyIsDuplicate(cfg: Config, s: Store, sub: Submission, now: Time, emailOk: string -> bool,
                                     id: DemandId)
    requires id in s.demands && Recent(cfg, now, s.demands[id])
    requires CleanDirectory(s, sub.directory) == Some(s.demands[id].directory)
    requires CleanEmail(sub.email, emailOk) == Some(s.demands[id].email)
    ensures DuplicateDemandError in Errors(cfg, s, sub, now, emailOk)
    ensures !IsValid(cfg, s, sub, now, emailOk)
  {
    DuplicateIffSameDemand(cfg, s, sub, now, emailOk);
    assert SameDemand(cfg, s, now, CleanText(sub.name), CleanEmail(sub.email, emailOk),
                      CleanDirectory(s, sub.directory), id);
  }

  /** Demands of other directories, and demands older than the minimum
      interval, never make a submission a duplicate. */
  lemma OnlyRecentSameDirectoryDemandsCount(cfg: Config, s: Store, sub: Submission, now: Time,
                                            emailOk: string -> bool)
    requires forall id :: id in s.demands ==>
               Some(s.demands[id].directory) != sub.directory || !Recent(cfg, now, s.demands[id])
    ensures DuplicateDemandError !in Errors(cfg, s, sub, now, emailOk)
  {
    DuplicateIffSameDemand(cfg, s, sub, now, emailOk);
  }

  /** A hidden directory can never be chosen. */
  lemma HiddenDirectoryRefused(cfg: Config, s: Store, sub: Submission, now: Time, emailOk: string -> bool)
    requires sub.directory.Some? && sub.directory.value in s.dirs && !s.dirs[sub.directory.value].isVisible
    ensures !IsValid(cfg, s, sub, now, emailOk)
  {
    assert DirectoryError in Errors(cfg, s, sub, now, emailOk);
  }
}
