/**
 The attendee tool of the workshop utilities: which usernames exist on the discussion forum,
 the attendee table assembled from the forum's user profiles, the optional e-mail column,
 and adding users to a forum group.

 Every reply of the forum's REST API is an input value (`Reply`): its HTTP status and its
 decoded JSON body. `raise_for_status` raises exactly for the statuses 400..599.
 */
module Attendees {

  import opened Wrappers
  import opened Text

  /** The exceptions the attendee tool raises. */
  datatype Error =
    | Upstream(status: int)           // `raise_for_status` on a 4xx or 5xx reply
    | Configuration                   // e-mails or a group change requested without usable credentials
    | MissingField(key: string)       // `KeyError`: a profile lacks a key the table requires
    | DuplicateLabel(username: string) // the e-mail listing names a user twice, so it cannot be reindexed
    | UnknownGroup(name: string)      // no forum group has the given name
    | InvalidGroupName(name: string)  // a group name with a space, refused on the command line
    | MissingCredentials              // the credentials file is absent or lacks a key

  /** A reply of the forum: the HTTP status and the decoded JSON body. */
  datatype Reply<T> = Reply(status: int, body: T)

  /** The statuses for which `raise_for_status` raises. */
  predicate IsHttpError(status: int) {
    400 <= status < 600
  }

  /** `r.raise_for_status(); r.json()`. */
  function Checked<T>(r: Reply<T>): (res: Result<T, Error>)
    ensures res.Success? <==> !IsHttpError(r.status)
    ensures res.Success? ==> res.value == r.body
    ensures res.Failure? ==> res.error == Upstream(r.status)
  {
    if IsHttpError(r.status) then Failure(Upstream(r.status)) else Success(r.body)
  }

  // ---------------------------------------------------------------------------------------
  // Which usernames exist

  /** The usernames of the forum's directory listing, page by page. */
  type DirectoryPage = Reply<seq<string>>

  /** The usernames on the pages before the first empty one. */
  function Flatten(pages: seq<seq<string>>): seq<string> {
    if |pages| == 0 then [] else pages[0] + Flatten(pages[1..])
  }

  /**
   The directory read from page 0 on, stopping at the first empty page (or at the end of the
   listing). A failing page aborts the read.
   */
  function ReadDirectory(pages: seq<DirectoryPage>): Result<seq<string>, Error> {
    if |pages| == 0 then Success([])
    else if IsHttpError(pages[0].status) then Failure(Upstream(pages[0].status))
    else if pages[0].body == [] then Success([])
    else
      var rest :- ReadDirectory(pages[1..]);
      Success(pages[0].body + rest)
  }

  /** The pages before `k` are read successfully and are not empty. */
  ghost predicate ReadableUpTo(pages: seq<DirectoryPage>, k: nat) {
    k <= |pages| && forall j :: 0 <= j < k ==> !IsHttpError(pages[j].status) && pages[j].body != []
  }

  function Bodies(pages: seq<DirectoryPage>): (bodies: seq<seq<string>>)
    ensures |bodies| == |pages|
  {
    seq(|pages|, j requires 0 <= j < |pages| => pages[j].body)
  }

  /**
   When page `k` is the first empty page, the directory is everything on pages 0..k-1,
   whatever comes after page `k`.
   */
  lemma {:induction false} ReadDirectoryStopsAtEmptyPage(pages: seq<DirectoryPage>, k: nat)
    requires ReadableUpTo(pages, k)
    requires k < |pages| && !IsHttpError(pages[k].status) && pages[k].body == []
    ensures ReadDirectory(pages) == Success(Flatten(Bodies(pages[..k])))
  {
    if k > 0 {
      ReadDirectoryStopsAtEmptyPage(pages[1..], k - 1);
      assert Bodies(pages[..k])[1..] == Bodies(pages[1..][..k - 1]);
    }
  }

  /** A failing page before the first empty page makes the whole read fail with its status. */
  lemma {:induction false} ReadDirectoryFailsAtErrorPage(pages: seq<DirectoryPage>, k: nat)
    requires ReadableUpTo(pages, k)
    requires k < |pages| && IsHttpError(pages[k].status)
    ensures ReadDirectory(pages) == Failure(Upstream(pages[k].status))
  {
    if k > 0 {
      ReadDirectoryFailsAtErrorPage(pages[1..], k - 1);
    }
  }

  /** Pages after the first empty page are never read: replacing them changes nothing. */
  lemma PagesAfterEmptyPageIgnored(pages: seq<DirectoryPage>, k: nat, later: seq<DirectoryPage>)
    requires ReadableUpTo(pages, k)
    requires k < |pages| && !IsHttpError(pages[k].status) && pages[k].body == []
    ensures ReadDirectory(pages[..k + 1] + later) == ReadDirectory(pages)
  {
    var other := pages[..k + 1] + later;
    assert other[..k] == pages[..k];
    ReadDirectoryStopsAtEmptyPage(pages, k);
    ReadDirectoryStopsAtEmptyPage(other, k);
  }

  /** The lower-cased directory usernames. */
  function LowerAll(names: seq<string>): (r: seq<string>)
    ensures |r| == |names|
  {
    seq(|names|, i requires 0 <= i < |names| => Lower(names[i]))
  }

  /** The candidates whose lower-cased form is not in `existing`, in order, duplicates kept. */
  function Unknown(candidates: seq<string>, existing: seq<string>): seq<string> {
    if |candidates| == 0 then []
    else (if Lower(candidates[0]) in existing then [] else [candidates[0]]) + Unknown(candidates[1..], existing)
  }

  /** `a` is `b` with some elements left out, the rest in the same order. */
  predicate IsSubsequence<T(==)>(a: seq<T>, b: seq<T>) {
    if |a| == 0 then true
    else if |b| == 0 then false
    else if a[0] == b[0] then IsSubsequence(a[1..], b[1..])
    else IsSubsequence(a, b[1..])
  }

  /**
   Unknown keeps exactly the candidates whose lower-cased form is not listed: it is a
   subsequence of the candidates, each kept candidate occurs as often as in the input and
   each dropped one not at all.
   */
  lemma {:induction false} UnknownSpec(candidates: seq<string>, existing: seq<string>)
    ensures IsSubsequence(Unknown(candidates, existing), candidates)
    ensures forall u :: multiset(Unknown(candidates, existing))[u]
                        == if Lower(u) in existing then 0 else multiset(candidates)[u]
    ensures forall u :: u in Unknown(candidates, existing) <==> u in candidates && Lower(u) !in existing
  {
    if |candidates| > 0 {
      var c, rest := candidates[0], candidates[1..];
      UnknownSpec(rest, existing);
      assert candidates == [c] + rest;
      var r := Unknown(rest, existing);
      if Lower(c) !in existing {
        assert Unknown(candidates, existing) == [c] + r;
        assert ([c] + r)[1..] == r;
      } else {
        assert Unknown(candidates, existing) == r;
        SubsequenceDropFront(r, c, rest);
      }
      forall u ensures u in Unknown(candidates, existing) <==> u in candidates && Lower(u) !in existing {
        assert u in Unknown(candidates, existing) <==> multiset(Unknown(candidates, existing))[u] > 0;
        assert u in candidates <==> multiset(candidates)[u] > 0;
      }
    }
  }

  /** A subsequence of `b` stays one when an element is put in front of `b`. */
  lemma {:induction false} SubsequenceDropFront<T>(a: seq<T>, x: T, b: seq<T>)
    requires IsSubsequence(a, b)
    ensures IsSubsequence(a, [x] + b)
    decreases |a| + |b|, 1
  {
    assert ([x] + b)[1..] == b;
    if |a| > 0 && a[0] == x {
      SubsequenceWeaken(a, b);
    }
  }

  /** Leaving out the first element of a subsequence keeps it a subsequence. */
  lemma {:induction false} SubsequenceWeaken<T>(a: seq<T>, b: seq<T>)
    requires |a| > 0 && IsSubsequence(a, b)
    ensures IsSubsequence(a[1..], b)
    decreases |a| + |b|, 0
  {
    assert [b[0]] + b[1..] == b;
    if a[0] != b[0] {
      SubsequenceWeaken(a, b[1..]);
    }
    SubsequenceDropFront(a[1..], b[0], b[1..]);
  }

  /** `check_usernames`: the candidates that do not exist on the forum, compared case-insensitively. */
  function CheckUsernames(candidates: seq<string>, pages: seq<DirectoryPage>): Result<seq<string>, Error> {
    var listed :- ReadDirectory(pages);
    Success(Unknown(candidates, LowerAll(listed)))
  }

  /**
   The result of check_usernames, once the directory was read: the candidates, in order and
   with their repetitions, whose lower-cased form no listed username has.
   */
  lemma CheckUsernamesSpec(candidates: seq<string>, pages: seq<DirectoryPage>)
    requires ReadDirectory(pages).Success?
    ensures var listed := ReadDirectory(pages).value;
            var r := CheckUsernames(candidates, pages);
            && r.Success?
            && IsSubsequence(r.value, candidates)
            && (forall u :: u in r.value <==> u in candidates && !exists v :: v in listed && Lower(v) == Lower(u))
            && (forall u :: u in candidates && Lower(u) !in LowerAll(listed) ==> multiset(r.value)[u] == multiset(candidates)[u])
  {
    var listed := ReadDirectory(pages).value;
    UnknownSpec(candidates, LowerAll(listed));
    forall u ensures Lower(u) in LowerAll(listed) <==> exists v :: v in listed && Lower(v) == Lower(u) {
      if Lower(u) in LowerAll(listed) {
        var i :| 0 <= i < |listed| && LowerAll(listed)[i] == Lower(u);
        assert listed[i] in listed;
      }
      if exists v :: v in listed && Lower(v) == Lower(u) {
        var v :| v in listed && Lower(v) == Lower(u);
        var i :| 0 <= i < |listed| && listed[i] == v;
        assert LowerAll(listed)[i] == Lower(u);
      }
    }
  }

  /** Every candidate is listed (up to case) exactly when check_usernames finds nothing missing. */
  lemma AllExistIffNothingMissing(candidates: seq<string>, pages: seq<DirectoryPage>)
    requires ReadDirectory(pages).Success?
    ensures var existing := LowerAll(ReadDirectory(pages).value);
            CheckUsernames(candidates, pages) == Success([])
            <==> forall u :: u in candidates ==> Lower(u) in existing
  {
    var existing := LowerAll(ReadDirectory(pages).value);
    UnknownSpec(candidates, existing);
  }

  /** Candidates that differ only in case are reported alike: both missing or both present. */
  lemma SameLowerCaseAlike(candidates: seq<string>, pages: seq<DirectoryPage>, u: string, v: string)
    requires ReadDirectory(pages).Success?
    requires u in candidates && v in candidates && Lower(u) == Lower(v)
    ensures CheckUsernames(candidates, pages).Success?
    ensures u in CheckUsernames(candidates, pages).value <==> v in CheckUsernames(candidates, pages).value
  {
    CheckUsernamesSpec(candidates, pages);
  }

  // ---------------------------------------------------------------------------------------
  // The attendee table

  const AvatarPrefix := "https://forum.openmod-initiative.org/user_avatar/forum.openmod-initiative.org/"
  const AvatarSuffix := "/500/8_1.png"
  /** The number the forum's API gives the custom user field "affiliation". */
  const AffiliationField := "3"

  /** `AVATAR_URL.format(username)`. */
  function AvatarUrl(username: string): (url: string)
    ensures |url| == |AvatarPrefix| + |username| + |AvatarSuffix|
    ensures url[|AvatarPrefix|..|url| - |AvatarSuffix|] == username
  {
    AvatarPrefix + username + AvatarSuffix
  }

  /** The avatar URL contains the username, and different usernames get different URLs. */
  lemma AvatarUrlNamesUser(username: string, other: string)
    ensures Contains(AvatarUrl(username), username)
    ensures AvatarUrl(username) == AvatarUrl(other) ==> username == other
  {
    ContainsInside(AvatarPrefix, username, AvatarSuffix);
  }

  /**
   The `user` object of a profile reply: its username, its other keys (a JSON null is
   `None`) and its `user_fields` object, `None` when that key is absent or null.
   */
  datatype Profile = Profile(username: string, fields: map<string, Option<string>>,
                             userFields: Option<map<string, Option<string>>>)

  /** One row of the attendee table, indexed by `username`. */
  datatype Attendee = Attendee(username: string, name: string, avatarUrl: string, location: string,
                               website: string, bio: string, affiliation: string)

  /** The attendee table; the e-mail column, aligned with the rows, exists only when requested. */
  datatype AttendeeTable = AttendeeTable(rows: seq<Attendee>, emails: Option<seq<Option<string>>>)

  /** An optional profile key: its value, or "" when the key is absent or null (`fillna("")`). */
  function Optional(fields: map<string, Option<string>>, key: string): (v: string)
    ensures key !in fields ==> v == ""
    ensures key in fields && fields[key].None? ==> v == ""
    ensures key in fields && fields[key].Some? ==> v == fields[key].value
  {
    if key in fields then fields[key].GetOr("") else ""
  }

  /** `api_username and api_key`: both given and both non-empty. */
  predicate HasCredentials(apiUsername: Option<string>, apiKey: Option<string>) {
    apiUsername.Some? && apiUsername.value != "" && apiKey.Some? && apiKey.value != ""
  }

  /** The profile lookups, one per username in order; the first failing lookup aborts them all. */
  function FetchAll(usernames: seq<string>, fetch: string -> Reply<Profile>): (r: Result<seq<Profile>, Error>)
    ensures r.Success? ==> (
      && |r.value| == |usernames|
      && forall i :: 0 <= i < |usernames| ==> !IsHttpError(fetch(usernames[i]).status) && r.value[i] == fetch(usernames[i]).body)
    ensures r.Failure? ==> exists i :: (
      && 0 <= i < |usernames| && IsHttpError(fetch(usernames[i]).status)
      && r.error == Upstream(fetch(usernames[i]).status)
      && forall j :: 0 <= j < i ==> !IsHttpError(fetch(usernames[j]).status))
  {
    if |usernames| == 0 then Success([])
    else
      var first :- Checked(fetch(usernames[0]));
      var rest :- FetchAll(usernames[1..], fetch);
      Success([first] + rest)
  }

  /** The name column: every profile must have a `name` key (a null name becomes ""). */
  function Names(profiles: seq<Profile>): (r: Result<seq<string>, Error>)
    ensures r.Success? <==> forall i :: 0 <= i < |profiles| ==> "name" in profiles[i].fields
    ensures r.Failure? ==> r.error == MissingField("name")
    ensures r.Success? ==> |r.value| == |profiles|
    ensures r.Success? ==> forall i :: 0 <= i < |profiles| ==> r.value[i] == Optional(profiles[i].fields, "name")
  {
    if |profiles| == 0 then Success([])
    else if "name" !in profiles[0].fields then Failure(MissingField("name"))
    else
      var rest :- Names(profiles[1..]);
      Success([Optional(profiles[0].fields, "name")] + rest)
  }

  /** Whether a profile has the affiliation field the table requires. */
  predicate HasAffiliation(p: Profile) {
    p.userFields.Some? && AffiliationField in p.userFields.value
  }

  /**
   The affiliation column, `user_fields["3"]`: every profile must have it; a missing
   `user_fields` object fails on that key, a missing field "3" on the field's key.
   */
  function Affiliations(profiles: seq<Profile>): (r: Result<seq<string>, Error>)
    ensures r.Success? <==> forall i :: 0 <= i < |profiles| ==> HasAffiliation(profiles[i])
    ensures r.Failure? ==> r.error == MissingField("user_fields") || r.error == MissingField(AffiliationField)
    ensures r.Success? ==> |r.value| == |profiles|
    ensures r.Success? ==> forall i :: 0 <= i < |profiles| ==> r.value[i] == Optional(profiles[i].userFields.value, AffiliationField)
  {
    if |profiles| == 0 then Success([])
    else if profiles[0].userFields.None? then Failure(MissingField("user_fields"))
    else if AffiliationField !in profiles[0].userFields.value then Failure(MissingField(AffiliationField))
    else
      var rest :- Affiliations(profiles[1..]);
      Success([Optional(profiles[0].userFields.value, AffiliationField)] + rest)
  }

  /** The table built from the looked-up profiles, before any e-mail column. */
  function BuildTable(usernames: seq<string>, profiles: seq<Profile>): (r: Result<seq<Attendee>, Error>)
    requires |profiles| == |usernames|
    ensures r.Success? ==> |r.value| == |usernames|
  {
    var names :- Names(profiles);
    var affiliations :- Affiliations(profiles);
    Success(seq(|profiles|, i requires 0 <= i < |profiles| =>
      Attendee(profiles[i].username, names[i], AvatarUrl(usernames[i]),
               Optional(profiles[i].fields, "location"), Optional(profiles[i].fields, "website"),
               Optional(profiles[i].fields, "bio_raw"), affiliations[i])))
  }

  /** One entry of the forum's active-user listing with e-mails. */
  datatype EmailEntry = EmailEntry(username: string, email: string)

  /** The e-mail of the entry for exactly `username`, if the listing has one. */
  function EmailOf(entries: seq<EmailEntry>, username: string): (r: Option<string>)
    ensures r.Some? ==> EmailEntry(username, r.value) in entries
    ensures r.None? ==> forall e :: e in entries ==> e.username != username
  {
    if |entries| == 0 then None
    else if entries[0].username == username then Some(entries[0].email)
    else EmailOf(entries[1..], username)
  }

  /** The index of the e-mail series built from a listing: its usernames, in order. */
  function Labels(entries: seq<EmailEntry>): (labels: seq<string>)
    ensures |labels| == |entries|
    ensures forall i :: 0 <= i < |entries| ==> labels[i] == entries[i].username
  {
    seq(|entries|, i requires 0 <= i < |entries| => entries[i].username)
  }

  /** A label an index carries more than once, if any. */
  function Repeated(labels: seq<string>): (r: Option<string>)
    ensures r.None? ==> forall i, j :: 0 <= i < j < |labels| ==> labels[i] != labels[j]
    ensures r.Some? ==> exists i, j :: 0 <= i < j < |labels| && labels[i] == r.value == labels[j]
  {
    if |labels| == 0 then None
    else if labels[0] in labels[1..] then
      var j :| 0 <= j < |labels[1..]| && labels[1..][j] == labels[0];
      assert labels[j + 1] == labels[0];
      Some(labels[0])
    else
      var r := Repeated(labels[1..]);
      assert r.None? ==> forall j :: 1 <= j < |labels| ==> labels[0] != labels[j] by {
        if r.None? {
          forall j | 1 <= j < |labels| ensures labels[0] != labels[j] {
            assert labels[j] == labels[1..][j - 1];
          }
        }
      }
      if r.Some? then
        var i, j :| 0 <= i < j < |labels[1..]| && labels[1..][i] == r.value == labels[1..][j];
        assert labels[i + 1] == r.value == labels[j + 1];
        r
      else r
  }

  /** No two entries of the listing name the same user. */
  predicate UniqueListing(entries: seq<EmailEntry>) {
    forall i, j :: 0 <= i < j < |entries| ==> entries[i].username != entries[j].username
  }

  /**
   `_retrieve_emails`: the listing as a series indexed by username, reindexed onto the
   requested usernames. When the index already equals the request, pandas keeps the series as
   it is, and an empty request gives an empty series; otherwise an index with a repeated label
   cannot be reindexed, and a unique one gives each requested username the e-mail of its
   entry or a missing value (pandas before 2.0, which the booklet's `pd.np` requires).
   */
  function RetrieveEmails(usernames: seq<string>, listing: Reply<seq<EmailEntry>>): (r: Result<seq<Option<string>>, Error>)
    ensures r.Success? ==> |r.value| == |usernames|
  {
    var entries :- Checked(listing);
    if Labels(entries) == usernames then
      Success(seq(|entries|, i requires 0 <= i < |entries| => Some(entries[i].email)))
    else if |usernames| == 0 then Success([])
    else
      match Repeated(Labels(entries))
      case Some(u) => Failure(DuplicateLabel(u))
      case None => Success(Reindex(entries, usernames))
  }

  /** `Series.reindex(usernames)` on a listing without repeated usernames. */
  function Reindex(entries: seq<EmailEntry>, usernames: seq<string>): (series: seq<Option<string>>)
    ensures |series| == |usernames|
  {
    seq(|usernames|, i requires 0 <= i < |usernames| => EmailOf(entries, usernames[i]))
  }

  /** The listing is unique per username: its e-mail is found exactly where it names the user. */
  lemma EmailOfUnique(entries: seq<EmailEntry>, username: string, e: string)
    requires UniqueListing(entries)
    ensures EmailOf(entries, username) == Some(e) <==> EmailEntry(username, e) in entries
  {
    if EmailEntry(username, e) in entries {
      var found := EmailOf(entries, username);
      var a :| 0 <= a < |entries| && entries[a] == EmailEntry(username, found.value);
      var b :| 0 <= b < |entries| && entries[b] == EmailEntry(username, e);
      assert a == b;
    }
  }

  /**
   The e-mail series exists exactly when the listing is readable and either lists the
   requested usernames themselves, in order, or nothing is requested, or it names no user
   twice. Value i is always an
   e-mail the listing gives requested user i, missing exactly when the listing does not name
   that user; when the listing is the request itself it is the i-th entry's e-mail, and when
   the listing is unique it is the one e-mail the listing gives that user.
   */
  lemma RetrieveEmailsSpec(usernames: seq<string>, listing: Reply<seq<EmailEntry>>)
    ensures var r := RetrieveEmails(usernames, listing);
      && (r.Success? <==> !IsHttpError(listing.status)
                          && (Labels(listing.body) == usernames || |usernames| == 0 || UniqueListing(listing.body)))
      && (r.Success? ==> forall i, e :: 0 <= i < |usernames| && r.value[i] == Some(e) ==> EmailEntry(usernames[i], e) in listing.body)
      && (r.Success? ==> forall i :: 0 <= i < |usernames| ==>
                           (r.value[i].None? <==> forall k :: 0 <= k < |listing.body| ==> listing.body[k].username != usernames[i]))
      && (r.Success? && Labels(listing.body) == usernames ==> forall i :: 0 <= i < |usernames| ==> r.value[i] == Some(listing.body[i].email))
      && (r.Success? && UniqueListing(listing.body) ==> forall i, e :: 0 <= i < |usernames| ==>
                           (r.value[i] == Some(e) <==> EmailEntry(usernames[i], e) in listing.body))
  {
    var r := RetrieveEmails(usernames, listing);
    var body := listing.body;
    if r.Success? {
      if Labels(body) == usernames {
        forall i, e | 0 <= i < |usernames| && r.value[i] == Some(e) ensures EmailEntry(usernames[i], e) in body {
          assert body[i] == EmailEntry(usernames[i], e);
        }
        forall i | 0 <= i < |usernames| ensures r.value[i].Some? && body[i].username == usernames[i] {
        }
      } else {
        forall i | 0 <= i < |usernames| ensures r.value[i] == EmailOf(body, usernames[i]) {
        }
      }
      if UniqueListing(body) {
        forall i, e | 0 <= i < |usernames| ensures r.value[i] == Some(e) <==> EmailEntry(usernames[i], e) in body {
          if Labels(body) == usernames {
            assert body[i].username == usernames[i];
            if EmailEntry(usernames[i], e) in body {
              var k :| 0 <= k < |body| && body[k] == EmailEntry(usernames[i], e);
              assert k == i;
            }
          } else {
            EmailOfUnique(body, usernames[i], e);
          }
        }
      }
    }
  }

  /**
   The value of `key` in a series with the given index labels (the first one when the key
   repeats), missing when the index lacks the key.
   */
  function LabelValue(keys: seq<string>, values: seq<Option<string>>, key: string): (r: Option<string>)
    requires |keys| == |values|
    ensures key !in keys ==> r.None?
    ensures key in keys ==> exists j :: 0 <= j < |keys| && keys[j] == key && r == values[j]
  {
    if |keys| == 0 then None
    else if keys[0] == key then values[0]
    else LabelValue(keys[1..], values[1..], key)
  }

  /** The index of the attendee table: the usernames the profiles carry, in order. */
  function RowNames(rows: seq<Attendee>): (names: seq<string>)
    ensures |names| == |rows|
    ensures forall i :: 0 <= i < |rows| ==> names[i] == rows[i].username
  {
    seq(|rows|, i requires 0 <= i < |rows| => rows[i].username)
  }

  /**
   `users["email"] = series`: a series whose index equals the table's is taken row by row;
   otherwise it is aligned on the table's index, which pandas refuses when the series' index
   repeats a label.
   */
  function AlignEmails(rows: seq<Attendee>, usernames: seq<string>, series: seq<Option<string>>): (emails: Result<seq<Option<string>>, Error>)
    requires |rows| == |usernames| == |series|
    ensures emails.Success? ==> |emails.value| == |rows|
  {
    if RowNames(rows) == usernames then Success(series)
    else
      match Repeated(usernames)
      case Some(u) => Failure(DuplicateLabel(u))
      case None => Success(seq(|rows|, i requires 0 <= i < |rows| => LabelValue(usernames, series, rows[i].username)))
  }

  /**
   Each row of an aligned e-mail column holds the series value under the row's own username,
   and nothing when the series has no such label.
   */
  lemma AlignedValue(rows: seq<Attendee>, usernames: seq<string>, series: seq<Option<string>>, i: nat)
    requires |rows| == |usernames| == |series|
    requires AlignEmails(rows, usernames, series).Success? && i < |rows|
    ensures rows[i].username !in usernames ==> AlignEmails(rows, usernames, series).value[i].None?
    ensures rows[i].username in usernames ==>
              exists j :: 0 <= j < |usernames| && usernames[j] == rows[i].username
                          && AlignEmails(rows, usernames, series).value[i] == series[j]
  {
    if RowNames(rows) == usernames {
      assert usernames[i] == rows[i].username;
    }
  }

  /**
   `attendee_list`: the credentials check, one lookup per username, the table, and the
   e-mail column when requested.
   */
  function AttendeeList(usernames: seq<string>, apiUsername: Option<string>, apiKey: Option<string>,
                        retrieveEmails: bool, fetch: string -> Reply<Profile>,
                        listing: Reply<seq<EmailEntry>>): Result<AttendeeTable, Error>
  {
    if retrieveEmails && !HasCredentials(apiUsername, apiKey) then Failure(Configuration)
    else
      var profiles :- FetchAll(usernames, fetch);
      var rows :- BuildTable(usernames, profiles);
      if retrieveEmails then
        var series :- RetrieveEmails(usernames, listing);
        var emails :- AlignEmails(rows, usernames, series);
        Success(AttendeeTable(rows, Some(emails)))
      else Success(AttendeeTable(rows, None))
  }

  /**
   Asking for e-mails without a non-empty api_username and api_key fails before any lookup:
   the result is the configuration error whatever the forum would have replied.
   */
  lemma CredentialsCheckedFirst(usernames: seq<string>, apiUsername: Option<string>, apiKey: Option<string>,
                                fetch: string -> Reply<Profile>, listing: Reply<seq<EmailEntry>>)
    requires !HasCredentials(apiUsername, apiKey)
    ensures AttendeeList(usernames, apiUsername, apiKey, true, fetch, listing) == Failure(Configuration)
  {
  }

  /**
   Without e-mails the credentials and the e-mail listing play no part, and the table has no
   e-mail column.
   */
  lemma NoEmailsNoCredentials(usernames: seq<string>, apiUsername: Option<string>, apiKey: Option<string>,
                              otherUsername: Option<string>, otherKey: Option<string>,
                              fetch: string -> Reply<Profile>, listing: Reply<seq<EmailEntry>>,
                              otherListing: Reply<seq<EmailEntry>>)
    ensures AttendeeList(usernames, apiUsername, apiKey, false, fetch, listing)
         == AttendeeList(usernames, otherUsername, otherKey, false, fetch, otherListing)
    ensures AttendeeList(usernames, apiUsername, apiKey, false, fetch, listing).Success? ==>
              AttendeeList(usernames, apiUsername, apiKey, false, fetch, listing).value.emails.None?
  {
  }

  /** The first failing lookup aborts the batch with its status: there is no partial table. */
  lemma LookupFailureAborts(usernames: seq<string>, apiUsername: Option<string>, apiKey: Option<string>,
                            retrieveEmails: bool, fetch: string -> Reply<Profile>,
                            listing: Reply<seq<EmailEntry>>, k: nat)
    requires !retrieveEmails || HasCredentials(apiUsername, apiKey)
    requires k < |usernames| && IsHttpError(fetch(usernames[k]).status)
    requires forall j :: 0 <= j < k ==> !IsHttpError(fetch(usernames[j]).status)
    ensures AttendeeList(usernames, apiUsername, apiKey, retrieveEmails, fetch, listing)
         == Failure(Upstream(fetch(usernames[k]).status))
  {
    var r := FetchAll(usernames, fetch);
    if r.Failure? {
      var i :| 0 <= i < |usernames| && IsHttpError(fetch(usernames[i]).status)
               && r.error == Upstream(fetch(usernames[i]).status)
               && forall j :: 0 <= j < i ==> !IsHttpError(fetch(usernames[j]).status);
      assert i == k;
    }
  }

  /**
   A successful table has one row per requested username, in order: the index is the
   profile's username, the avatar URL names the requested username, `location`, `website`
   and `bio` (key `bio_raw`) are their values or "" when absent or null, `name` and the
   affiliation are present in every profile.
   */
  lemma AttendeeRows(usernames: seq<string>, apiUsername: Option<string>, apiKey: Option<string>,
                     retrieveEmails: bool, fetch: string -> Reply<Profile>, listing: Reply<seq<EmailEntry>>)
    requires AttendeeList(usernames, apiUsername, apiKey, retrieveEmails, fetch, listing).Success?
    ensures var table := AttendeeList(usernames, apiUsername, apiKey, retrieveEmails, fetch, listing).value;
      && |table.rows| == |usernames|
      && forall i :: 0 <= i < |usernames| ==>
           var p, row := fetch(usernames[i]).body, table.rows[i];
           && !IsHttpError(fetch(usernames[i]).status)
           && row.username == p.username
           && row.avatarUrl == AvatarUrl(usernames[i])
           && "name" in p.fields && row.name == Optional(p.fields, "name")
           && HasAffiliation(p) && row.affiliation == Optional(p.userFields.value, AffiliationField)
           && row.location == Optional(p.fields, "location")
           && row.website == Optional(p.fields, "website")
           && row.bio == Optional(p.fields, "bio_raw")
  {
  }

  /** A profile without a `name` key fails the whole table, even when other keys are missing too. */
  lemma MissingNameFails(usernames: seq<string>, apiUsername: Option<string>, apiKey: Option<string>,
                         retrieveEmails: bool, fetch: string -> Reply<Profile>,
                         listing: Reply<seq<EmailEntry>>, k: nat)
    requires !retrieveEmails || HasCredentials(apiUsername, apiKey)
    requires forall j :: 0 <= j < |usernames| ==> !IsHttpError(fetch(usernames[j]).status)
    requires k < |usernames| && "name" !in fetch(usernames[k]).body.fields
    ensures AttendeeList(usernames, apiUsername, apiKey, retrieveEmails, fetch, listing) == Failure(MissingField("name"))
  {
    var profiles := FetchAll(usernames, fetch);
    assert profiles.Success?;
    assert profiles.value[k] == fetch(usernames[k]).body;
  }

  /** A profile without the affiliation field fails the whole table. */
  lemma MissingAffiliationFails(usernames: seq<string>, apiUsername: Option<string>, apiKey: Option<string>,
                                retrieveEmails: bool, fetch: string -> Reply<Profile>,
                                listing: Reply<seq<EmailEntry>>, k: nat)
    requires !retrieveEmails || HasCredentials(apiUsername, apiKey)
    requires forall j :: 0 <= j < |usernames| ==> !IsHttpError(fetch(usernames[j]).status)
    requires k < |usernames| && !HasAffiliation(fetch(usernames[k]).body)
    ensures AttendeeList(usernames, apiUsername, apiKey, retrieveEmails, fetch, listing).Failure?
    ensures AttendeeList(usernames, apiUsername, apiKey, retrieveEmails, fetch, listing).error
              in {MissingField("name"), MissingField("user_fields"), MissingField(AffiliationField)}
  {
    var profiles := FetchAll(usernames, fetch);
    assert profiles.Success?;
    assert profiles.value[k] == fetch(usernames[k]).body;
  }

  /**
   With e-mails requested, a successful table carries an e-mail per row. A row's e-mail is one
   the listing gives exactly the row's username, and it is missing exactly when that username
   was not requested or the listing does not name it. When the listing names every user at
   most once, the row's e-mail is the listed one.
   */
  lemma EmailColumn(usernames: seq<string>, apiUsername: Option<string>, apiKey: Option<string>,
                    fetch: string -> Reply<Profile>, listing: Reply<seq<EmailEntry>>)
    requires AttendeeList(usernames, apiUsername, apiKey, true, fetch, listing).Success?
    ensures var table := AttendeeList(usernames, apiUsername, apiKey, true, fetch, listing).value;
            var body := listing.body;
      && table.emails.Some? && |table.emails.value| == |table.rows|
      && (forall i, e :: 0 <= i < |table.rows| && table.emails.value[i] == Some(e) ==>
            table.rows[i].username in usernames && EmailEntry(table.rows[i].username, e) in body)
      && (forall i :: 0 <= i < |table.rows| ==>
            (table.emails.value[i].None? <==>
               table.rows[i].username !in usernames
               || forall k :: 0 <= k < |body| ==> body[k].username != table.rows[i].username))
      && (UniqueListing(body) ==> forall i, e :: 0 <= i < |table.rows| ==>
            (table.emails.value[i] == Some(e) <==>
               table.rows[i].username in usernames && EmailEntry(table.rows[i].username, e) in body))
  {
    var profiles := FetchAll(usernames, fetch).value;
    var rows := BuildTable(usernames, profiles).value;
    var series := RetrieveEmails(usernames, listing).value;
    RetrieveEmailsSpec(usernames, listing);
    var emails := AlignEmails(rows, usernames, series).value;
    var body := listing.body;
    forall i, e | 0 <= i < |rows| && emails[i] == Some(e)
      ensures rows[i].username in usernames && EmailEntry(rows[i].username, e) in body
    {
      AlignedValue(rows, usernames, series, i);
    }
    forall i | 0 <= i < |rows|
      ensures emails[i].None? <==> rows[i].username !in usernames
                                   || forall k :: 0 <= k < |body| ==> body[k].username != rows[i].username
    {
      AlignedValue(rows, usernames, series, i);
    }
    if UniqueListing(body) {
      forall i, e | 0 <= i < |rows|
        ensures emails[i] == Some(e) <==> rows[i].username in usernames && EmailEntry(rows[i].username, e) in body
      {
        AlignedValue(rows, usernames, series, i);
      }
    }
  }

  /** When every profile carries the username it was looked up by, the e-mail column is the retrieved series. */
  lemma EmailsFollowRequest(usernames: seq<string>, apiUsername: Option<string>, apiKey: Option<string>,
                            fetch: string -> Reply<Profile>, listing: Reply<seq<EmailEntry>>)
    requires AttendeeList(usernames, apiUsername, apiKey, true, fetch, listing).Success?
    requires forall i :: 0 <= i < |usernames| ==> fetch(usernames[i]).body.username == usernames[i]
    ensures var table := AttendeeList(usernames, apiUsername, apiKey, true, fetch, listing).value;
      && RetrieveEmails(usernames, listing).Success?
      && table.emails == Some(RetrieveEmails(usernames, listing).value)
  {
    var profiles := FetchAll(usernames, fetch).value;
    var rows := BuildTable(usernames, profiles).value;
    assert RowNames(rows) == usernames;
  }

  /**
   A request that names a user twice, where some profile carries a username other than the
   one it was looked up by, cannot take the e-mail column: aligning it fails on a repeated
   username.
   */
  lemma MisalignedRepeatFails(usernames: seq<string>, apiUsername: Option<string>, apiKey: Option<string>,
                              fetch: string -> Reply<Profile>, listing: Reply<seq<EmailEntry>>, a: nat, b: nat, k: nat)
    requires HasCredentials(apiUsername, apiKey)
    requires AttendeeList(usernames, apiUsername, apiKey, false, fetch, listing).Success?
    requires RetrieveEmails(usernames, listing).Success?
    requires a < b < |usernames| && usernames[a] == usernames[b]
    requires k < |usernames| && fetch(usernames[k]).body.username != usernames[k]
    ensures var r := AttendeeList(usernames, apiUsername, apiKey, true, fetch, listing);
      && r.Failure? && r.error.DuplicateLabel?
      && exists i, j :: 0 <= i < j < |usernames| && usernames[i] == r.error.username == usernames[j]
  {
    var profiles := FetchAll(usernames, fetch).value;
    var rows := BuildTable(usernames, profiles).value;
    assert RowNames(rows)[k] != usernames[k];
    assert Repeated(usernames).Some?;
  }

  // ---------------------------------------------------------------------------------------
  // Adding users to a group

  /** `GroupName.convert`: a group name with a space is refused, any other passes unchanged. */
  function ConvertGroupName(value: string): (r: Result<string, Error>)
    ensures r.Success? <==> ' ' !in value
    ensures r.Success? ==> r.value == value
  {
    if ' ' in value then Failure(InvalidGroupName(value)) else Success(value)
  }

  /** One entry of the forum's group search: a group's name and id. */
  datatype Group = Group(name: string, id: int)

  /** `{group["name"]: group["id"] for group in all_groups}`: later entries override earlier ones. */
  function NameToId(groups: seq<Group>): map<string, int> {
    if |groups| == 0 then map[]
    else NameToId(groups[..|groups| - 1])[groups[|groups| - 1].name := groups[|groups| - 1].id]
  }

  /**
   The dictionary maps exactly the listed names, each to the id of the LAST group listed
   with that name.
   */
  lemma {:induction false} NameToIdSpec(groups: seq<Group>, name: string)
    ensures name in NameToId(groups) <==> exists i :: 0 <= i < |groups| && groups[i].name == name
    ensures name in NameToId(groups) ==> exists i :: 0 <= i < |groups| && groups[i] == Group(name, NameToId(groups)[name])
                                           && forall j :: i < j < |groups| ==> groups[j].name != name
  {
    if |groups| > 0 {
      var init, last := groups[..|groups| - 1], groups[|groups| - 1];
      NameToIdSpec(init, name);
      if last.name != name && name in NameToId(groups) {
        var i :| 0 <= i < |init| && init[i] == Group(name, NameToId(init)[name])
                 && forall j :: i < j < |init| ==> init[j].name != name;
        assert groups[i] == init[i];
      }
      if exists i :: 0 <= i < |groups| && groups[i].name == name {
        var i :| 0 <= i < |groups| && groups[i].name == name;
        if i < |groups| - 1 {
          assert init[i].name == name;
        }
      }
    }
  }

  /**
   `_group_name_to_id`: the id of the group with exactly that name (the last one listed when
   several share it); an unknown name fails.
   */
  function GroupNameToId(groupName: string, apiUsername: string, apiKey: string, groupsReply: Reply<seq<Group>>): (r: Result<int, Error>)
  {
    if apiUsername == "" || apiKey == "" then Failure(Configuration)
    else
      var groups :- Checked(groupsReply);
      var ids := NameToId(groups);
      if groupName !in ids then Failure(UnknownGroup(groupName)) else Success(ids[groupName])
  }

  /**
   GroupNameToId, once the credentials and the search reply are usable: an unknown name
   fails, a known one yields the id of the last group listed under it.
   */
  lemma GroupNameToIdSpec(groupName: string, apiUsername: string, apiKey: string, groupsReply: Reply<seq<Group>>)
    requires apiUsername != "" && apiKey != "" && !IsHttpError(groupsReply.status)
    ensures var r := GroupNameToId(groupName, apiUsername, apiKey, groupsReply);
            var groups := groupsReply.body;
            && (r == Failure(UnknownGroup(groupName)) <==> forall i :: 0 <= i < |groups| ==> groups[i].name != groupName)
            && (r.Success? ==> exists i :: 0 <= i < |groups| && groups[i] == Group(groupName, r.value)
                                  && forall j :: i < j < |groups| ==> groups[j].name != groupName)
  {
    NameToIdSpec(groupsReply.body, groupName);
  }

  /** What the `add` command reports when it does not fail. */
  datatype AddOutcome = AddedAll | AlreadyMembers

  /** The status handling of `add`: 422 is reported, not raised; other error statuses raise. */
  function AddStatus(status: int): (r: Result<AddOutcome, Error>)
    ensures r == Success(AlreadyMembers) <==> status == 422
    ensures r.Failure? <==> status != 422 && IsHttpError(status)
    ensures r.Failure? ==> r.error == Upstream(status)
  {
    if status == 422 then Success(AlreadyMembers)
    else if IsHttpError(status) then Failure(Upstream(status))
    else Success(AddedAll)
  }

  /** `_read_credentials`: the file must exist and hold both `api_key` and `api_username`. */
  function ReadCredentials(file: Option<map<string, string>>): (r: Result<(string, string), Error>)
    ensures r.Success? <==> file.Some? && "api_key" in file.value && "api_username" in file.value
    ensures r.Success? ==> r.value == (file.value["api_username"], file.value["api_key"])
  {
    if file.None? then Failure(MissingCredentials)
    else if "api_key" !in file.value || "api_username" !in file.value then Failure(MissingCredentials)
    else Success((file.value["api_username"], file.value["api_key"]))
  }

  /**
   The `add` command after its username check: the group name is validated, the credentials
   read, the group resolved, and the PUT's status decides the outcome.
   */
  function Add(groupName: string, credentialsFile: Option<map<string, string>>,
               groupsReply: Reply<seq<Group>>, putStatus: int): Result<AddOutcome, Error>
  {
    var name :- ConvertGroupName(groupName);
    var credentials :- ReadCredentials(credentialsFile);
    var id :- GroupNameToId(name, credentials.0, credentials.1, groupsReply);
    AddStatus(putStatus)
  }

  /** Adding users who already belong to the group is reported, not raised. */
  lemma AlreadyMembersIsNotFatal(groupName: string, credentialsFile: Option<map<string, string>>,
                                 groupsReply: Reply<seq<Group>>)
    requires ' ' !in groupName
    requires ReadCredentials(credentialsFile).Success?
    requires GroupNameToId(groupName, ReadCredentials(credentialsFile).value.0,
                           ReadCredentials(credentialsFile).value.1, groupsReply).Success?
    ensures Add(groupName, credentialsFile, groupsReply, 422) == Success(AlreadyMembers)
  {
  }

  /** Adding to a group no forum group is named after fails with the unknown-group error. */
  lemma UnknownGroupFails(groupName: string, credentialsFile: Option<map<string, string>>,
                          groupsReply: Reply<seq<Group>>, putStatus: int)
    requires ' ' !in groupName
    requires ReadCredentials(credentialsFile).Success?
    requires ReadCredentials(credentialsFile).value.0 != "" && ReadCredentials(credentialsFile).value.1 != ""
    requires !IsHttpError(groupsReply.status)
    requires forall i :: 0 <= i < |groupsReply.body| ==> groupsReply.body[i].name != groupName
    ensures Add(groupName, credentialsFile, groupsReply, putStatus) == Failure(UnknownGroup(groupName))
  {
    var c := ReadCredentials(credentialsFile).value;
    GroupNameToIdSpec(groupName, c.0, c.1, groupsReply);
  }

  /**
   A group name with a space fails first, whatever the credentials file and the forum would
   give; a name without one never fails on its name.
   */
  lemma GroupNameCheckedFirst(groupName: string, credentialsFile: Option<map<string, string>>,
                              groupsReply: Reply<seq<Group>>, putStatus: int)
    ensures Add(groupName, credentialsFile, groupsReply, putStatus) == Failure(InvalidGroupName(groupName))
            <==> ' ' in groupName
  {
  }

  /**
   With a valid group name, `add` fails on its credentials exactly when the file is absent or
   lacks `api_key` or `api_username`, before the forum is asked, whatever it would reply.
   */
  lemma MissingCredentialsFails(groupName: string, credentialsFile: Option<map<string, string>>,
                                groupsReply: Reply<seq<Group>>, putStatus: int)
    requires ' ' !in groupName
    ensures Add(groupName, credentialsFile, groupsReply, putStatus) == Failure(MissingCredentials)
            <==> credentialsFile.None? || "api_key" !in credentialsFile.value || "api_username" !in credentialsFile.value
  {
  }

  /**
   Once the group is found, the PUT's status alone decides: 422 reports that some users are
   already members, another status from 400 to 599 fails with that status, and any other
   status means every user was added.
   */
  lemma AddOutcomes(groupName: string, credentials: map<string, string>, groupsReply: Reply<seq<Group>>, putStatus: int)
    requires ' ' !in groupName
    requires "api_key" in credentials && "api_username" in credentials
    requires credentials["api_key"] != "" && credentials["api_username"] != ""
    requires !IsHttpError(groupsReply.status)
    requires exists i :: 0 <= i < |groupsReply.body| && groupsReply.body[i].name == groupName
    ensures var r := Add(groupName, Some(credentials), groupsReply, putStatus);
      && (r == Success(AlreadyMembers) <==> putStatus == 422)
      && (r == Failure(Upstream(putStatus)) <==> putStatus != 422 && 400 <= putStatus < 600)
      && (r == Success(AddedAll) <==> putStatus != 422 && !(400 <= putStatus < 600))
  {
    GroupNameToIdSpec(groupName, credentials["api_username"], credentials["api_key"], groupsReply);
  }
}
