/**
 The participant booklet: the rows of the attendee table ordered by last name, each turned
 into the values its HTML fragment shows, the fragments joined by newlines.

 The HTML templates are a parameter (`render`): the model fixes what each fragment is given,
 not the markup around it.
 */
module Booklet {

  import opened Wrappers
  import opened Text
  import Attendees

  /** A row of the users table, every missing cell already replaced by "". */
  type Participant = Attendees.Attendee

  // ---------------------------------------------------------------------------------------
  // The website label

  /** The label of a website link: the URL without `https://`, `http://` and enclosing slashes. */
  function CleanWebsite(url: string): (text: string)
    ensures |text| <= |url|
    ensures text == [] || (text[0] != '/' && text[|text| - 1] != '/')
  {
    Strip(ReplaceAll(ReplaceAll(url, "https://", ""), "http://", ""), '/')
  }

  /** "http://" followed by a host without either scheme does not contain "https://". */
  lemma NoHttpsAfterHttp(host: string)
    requires !Contains(host, "https://")
    ensures !Contains("http://" + host, "https://")
  {
    var s := "http://" + host;
    forall i: nat | i <= |s| ensures !OccursAt(s, "https://", i) {
      if i >= 7 {
        if i + 8 <= |s| {
          assert s[i..i + 8] == host[i - 7..i - 7 + 8];
        }
        assert !OccursAt(host, "https://", i - 7);
      } else if i + 8 <= |s| {
        assert s[i..i + 8][0] == s[i] && s[i..i + 8][4] == s[i + 4];
      }
    }
  }

  /**
   For a URL made of a scheme and a host that mentions no scheme, the label is the host
   without its enclosing slashes.
   */
  lemma CleanWebsiteDropsScheme(host: string)
    requires !Contains(host, "https://") && !Contains(host, "http://")
    ensures CleanWebsite("https://" + host) == Strip(host, '/')
    ensures CleanWebsite("http://" + host) == Strip(host, '/')
    ensures CleanWebsite(host) == Strip(host, '/')
  {
    ReplaceLeading("https://", host, "");
    ReplaceAbsent(host, "https://", "");
    ReplaceAbsent(host, "http://", "");
    assert "" + host == host;
    NoHttpsAfterHttp(host);
    ReplaceAbsent("http://" + host, "https://", "");
    ReplaceLeading("http://", host, "");
  }

  // ---------------------------------------------------------------------------------------
  // The biography

  /** Biographies longer than this are shortened. */
  const BioLimit := 550
  /** A shortened biography keeps at most this many of its characters. */
  const BioKept := 500

  /** The link appended to a shortened biography, pointing at the user's forum profile. */
  function ReadMore(username: string): string {
    "... <a href=\"https://forum.openmod-initiative.org/u/" + username + "\">[read more on forum profile]</a>"
  }

  /**
   A biography of at most BioLimit characters is shown as it is. A longer one is cut at the
   last space within its first BioKept characters (or after BioKept characters when they
   hold no space) and followed by the link to the user's profile.
   */
  function TruncateBio(bio: string, username: string): (r: string)
    ensures |bio| <= BioLimit ==> r == bio
    ensures |bio| > BioLimit ==>
              var k := |r| - |ReadMore(username)|;
              && 0 <= k <= BioKept
              && r[k..] == ReadMore(username)
              && r[..k] == bio[..k]
              && ((forall j :: 0 <= j < BioKept ==> bio[j] != ' ') ==> k == BioKept)
              && ((exists j :: 0 <= j < BioKept && bio[j] == ' ') ==>
                    bio[k] == ' ' && forall j :: k < j < BioKept ==> bio[j] != ' ')
  {
    if |bio| > BioLimit then
      var kept := BeforeLastSpace(bio[..BioKept]);
      var r := kept + ReadMore(username);
      assert r[|kept|..] == ReadMore(username);
      assert r[..|kept|] == kept;
      r
    else bio
  }

  /** A shortened biography links to the profile of its user and stays bounded. */
  lemma ShortenedBioLinksProfile(bio: string, username: string)
    requires |bio| > BioLimit
    ensures Contains(TruncateBio(bio, username), username)
    ensures |TruncateBio(bio, username)| <= BioKept + |ReadMore(username)|
  {
    var r := TruncateBio(bio, username);
    var k := |r| - |ReadMore(username)|;
    var head := "... <a href=\"https://forum.openmod-initiative.org/u/";
    var tail := "\">[read more on forum profile]</a>";
    assert r == r[..k] + head + username + tail by {
      assert r == r[..k] + r[k..];
    }
    ContainsInside(r[..k] + head, username, tail);
  }

  // ---------------------------------------------------------------------------------------
  // The order of the booklet

  /** The last name: the last word of the name, none when the name has no word (NaN). */
  function SortKey(p: Participant): Option<string> {
    LastToken(p.name)
  }

  /** `sort_values`' order on last names: ascending, the missing ones last. */
  predicate KeyLessEq(a: Option<string>, b: Option<string>) {
    b.None? || (a.Some? && LessEq(a.value, b.value))
  }

  lemma KeyLessEqTotal(a: Option<string>, b: Option<string>)
    ensures KeyLessEq(a, b) || KeyLessEq(b, a)
  {
    if a.Some? && b.Some? {
      LessEqTotal(a.value, b.value);
    }
  }

  lemma KeyLessEqTransitive(a: Option<string>, b: Option<string>, c: Option<string>)
    requires KeyLessEq(a, b) && KeyLessEq(b, c)
    ensures KeyLessEq(a, c)
  {
    if a.Some? && b.Some? && c.Some? {
      LessEqTransitive(a.value, b.value, c.value);
    }
  }

  predicate SortedByLastName(ps: seq<Participant>) {
    forall i, j :: 0 <= i < j < |ps| ==> KeyLessEq(SortKey(ps[i]), SortKey(ps[j]))
  }

  /** A participant whose last name precedes every other one may go in front of a sorted table. */
  lemma ConsSorted(x: Participant, ps: seq<Participant>)
    requires SortedByLastName(ps)
    requires forall y :: y in ps ==> KeyLessEq(SortKey(x), SortKey(y))
    ensures SortedByLastName([x] + ps)
  {
    var r := [x] + ps;
    forall i, j | 0 <= i < j < |r| ensures KeyLessEq(SortKey(r[i]), SortKey(r[j])) {
      assert r[j] == ps[j - 1];
      if i > 0 {
        assert r[i] == ps[i - 1];
      }
    }
  }

  /** `p` put before the first participant of `ps` whose last name does not precede its own. */
  function Insert(p: Participant, ps: seq<Participant>): (r: seq<Participant>)
    requires SortedByLastName(ps)
    ensures SortedByLastName(r)
    ensures multiset(r) == multiset(ps) + multiset{p}
  {
    if |ps| == 0 then [p]
    else if KeyLessEq(SortKey(p), SortKey(ps[0])) then
      InsertInFront(p, ps);
      [p] + ps
    else
      var rest := Insert(p, ps[1..]);
      InsertBehind(p, ps, rest);
      [ps[0]] + rest
  }

  lemma InsertInFront(p: Participant, ps: seq<Participant>)
    requires SortedByLastName(ps) && |ps| > 0 && KeyLessEq(SortKey(p), SortKey(ps[0]))
    ensures SortedByLastName([p] + ps)
  {
    forall y | y in ps ensures KeyLessEq(SortKey(p), SortKey(y)) {
      var j :| 0 <= j < |ps| && ps[j] == y;
      if j > 0 {
        KeyLessEqTransitive(SortKey(p), SortKey(ps[0]), SortKey(ps[j]));
      }
    }
    ConsSorted(p, ps);
  }

  lemma InsertBehind(p: Participant, ps: seq<Participant>, rest: seq<Participant>)
    requires SortedByLastName(ps) && |ps| > 0 && !KeyLessEq(SortKey(p), SortKey(ps[0]))
    requires SortedByLastName(rest) && multiset(rest) == multiset(ps[1..]) + multiset{p}
    ensures SortedByLastName([ps[0]] + rest)
    ensures multiset([ps[0]] + rest) == multiset(ps) + multiset{p}
  {
    KeyLessEqTotal(SortKey(p), SortKey(ps[0]));
    forall y | y in rest ensures KeyLessEq(SortKey(ps[0]), SortKey(y)) {
      assert y in multiset(rest);
      if y != p {
        assert y in multiset(ps[1..]);
        var j :| 0 <= j < |ps[1..]| && ps[1..][j] == y;
        assert ps[j + 1] == y;
      }
    }
    ConsSorted(ps[0], rest);
    assert ps == [ps[0]] + ps[1..];
  }

  /** `users.sort_values(by='lastname')`: the same participants, ordered by last name. */
  function SortByLastName(ps: seq<Participant>): (r: seq<Participant>)
    ensures SortedByLastName(r)
    ensures multiset(r) == multiset(ps)
  {
    if |ps| == 0 then []
    else
      assert ps == [ps[0]] + ps[1..];
      Insert(ps[0], SortByLastName(ps[1..]))
  }

  /** In a table sorted by last name, a participant without a last name comes after every one with. */
  lemma NamelessLast(ps: seq<Participant>, i: nat, j: nat)
    requires SortedByLastName(ps)
    requires i < |ps| && j < |ps| && SortKey(ps[i]).None? && SortKey(ps[j]).Some?
    ensures j < i
  {
  }

  // ---------------------------------------------------------------------------------------
  // The fragments

  /** What the participant template is given. */
  datatype ParticipantView = ParticipantView(username: string, name: string, bio: string, affiliation: string,
                                             websiteUrl: string, websiteText: string, location: string,
                                             portraitUrl: string)

  /** `render_participant` without its template. */
  function View(p: Participant): ParticipantView {
    ParticipantView(p.username, Title(p.name), TruncateBio(p.bio, p.username), p.affiliation,
                    p.website, CleanWebsite(p.website), p.location, p.avatarUrl)
  }

  /**
   A participant's view links the full website under a label without scheme or enclosing
   slashes, shows the name in title case (same letters), and shows a short biography as it is.
   */
  lemma ViewSpec(p: Participant)
    ensures var v := View(p);
      && v.username == p.username && v.websiteUrl == p.website && v.portraitUrl == p.avatarUrl
      && (v.websiteText == [] || (v.websiteText[0] != '/' && v.websiteText[|v.websiteText| - 1] != '/'))
      && |v.name| == |p.name| && Lower(v.name) == Lower(p.name)
      && (|p.bio| <= BioLimit ==> v.bio == p.bio)
      && (|p.bio| > BioLimit ==> Contains(v.bio, p.username))
  {
    TitleKeepsLetters(p.name);
    if |p.bio| > BioLimit {
      ShortenedBioLinksProfile(p.bio, p.username);
    }
  }

  /** The rendered fragments, one per participant in table order. */
  function Fragments(ps: seq<Participant>, render: ParticipantView -> string): (fs: seq<string>)
    ensures |fs| == |ps|
  {
    seq(|ps|, i requires 0 <= i < |ps| => render(View(ps[i])))
  }

  /** `render_booklet`'s participant section: the fragments joined by newlines. */
  function RenderParticipants(ps: seq<Participant>, render: ParticipantView -> string): string {
    Join(Fragments(ps, render), "\n")
  }

  /** `build`'s participant section: the table ordered by last name, then rendered. */
  function BuildParticipants(ps: seq<Participant>, render: ParticipantView -> string): string {
    RenderParticipants(SortByLastName(ps), render)
  }

  /** Every participant's fragment appears in the participant section. */
  lemma EveryParticipantRendered(ps: seq<Participant>, render: ParticipantView -> string, p: Participant)
    requires p in ps
    ensures Contains(BuildParticipants(ps, render), render(View(p)))
  {
    var sorted := SortByLastName(ps);
    assert p in multiset(sorted);
    var i :| 0 <= i < |sorted| && sorted[i] == p;
    JoinContainsParts(Fragments(sorted, render), "\n", i);
  }

  /** Sorting keeps the number of participants. */
  lemma SortKeepsLength(ps: seq<Participant>)
    ensures |SortByLastName(ps)| == |ps|
  {
    assert |SortByLastName(ps)| == |multiset(SortByLastName(ps))|;
  }

  /**
   In the rendered section of a table, row i's fragment starts after every earlier fragment
   and its newline, and a newline follows it unless it is the last.
   */
  lemma {:induction false} SectionPlaces(ps: seq<Participant>, render: ParticipantView -> string, i: nat)
    requires i < |ps|
    ensures var fs := Fragments(ps, render);
            var section := RenderParticipants(ps, render);
      && fs[i] == render(View(ps[i]))
      && OccursAt(section, fs[i], PieceStart(fs, "\n", i))
      && (i + 1 < |ps| ==> PieceStart(fs, "\n", i) + |fs[i]| < |section|
                           && section[PieceStart(fs, "\n", i) + |fs[i]|] == '\n')
  {
    var fs := Fragments(ps, render);
    JoinPlacesParts(fs, "\n", i);
    if i + 1 < |ps| {
      JoinSeparatorAfter(fs, "\n", i);
    }
  }

  /**
   Whatever the template renders, the i-th participant in last-name order has its fragment at
   offset Σ_{j<i} (|fragment j| + 1) of the participant section, followed by a newline unless
   it is the last.
   */
  lemma {:induction false} FragmentsInOrder(ps: seq<Participant>, render: ParticipantView -> string, i: nat)
    requires i < |ps|
    ensures var sorted := SortByLastName(ps);
            var fs := Fragments(sorted, render);
            var section := BuildParticipants(ps, render);
      && SortedByLastName(sorted) && multiset(sorted) == multiset(ps) && |sorted| == |ps|
      && OccursAt(section, render(View(sorted[i])), PieceStart(fs, "\n", i))
      && (i + 1 < |ps| ==> PieceStart(fs, "\n", i) + |fs[i]| < |section|
                           && section[PieceStart(fs, "\n", i) + |fs[i]|] == '\n')
  {
    var sorted := SortByLastName(ps);
    SortKeepsLength(ps);
    SectionPlaces(sorted, render, i);
  }

  /**
   When no fragment spans several lines, the section's lines are the fragments, one per
   participant, in last-name order.
   */
  lemma OneLinePerParticipant(ps: seq<Participant>, render: ParticipantView -> string)
    requires |ps| >= 1
    requires forall p :: p in ps ==> '\n' !in render(View(p))
    ensures var sorted := SortByLastName(ps);
      && SplitOn(BuildParticipants(ps, render), '\n') == Fragments(sorted, render)
      && SortedByLastName(sorted) && multiset(sorted) == multiset(ps)
  {
    var sorted := SortByLastName(ps);
    var fs := Fragments(sorted, render);
    forall i | 0 <= i < |fs| ensures '\n' !in fs[i] {
      assert sorted[i] in multiset(ps);
    }
    SplitJoin(fs, '\n');
  }
}
