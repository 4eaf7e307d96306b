# Workshop attendee tools, modelled in Dafny

A model of the three command-line tools the openmod initiative uses to run its workshops:

- `allocate.py` spreads a set of things (workshop participants) randomly over a list of
  resources (rooms) in groups of nearly equal size. The model is the method
  `Allocate.RandomAllocation`. Its contract states the result's shape: a partition of the
  things into one group per resource, with each thing labelled by its group's resource. It
  also states the exact group sizes that the rounded group size and the "remainder goes to
  the last resource" rule produce.
- `attendees.py` talks to the Discourse forum. It finds the usernames that do not exist,
  builds the attendee table (name, avatar, location, website, bio, affiliation, optionally
  e-mail) from the users' profiles, and adds users to a forum group. Every forum reply is an
  input value: an HTTP status and a decoded JSON body. Requests fail exactly as
  `raise_for_status` makes them fail, for statuses 400 to 599. Missing credentials, missing
  profile keys, unknown groups and refused group names are explicit `Error` values.
- `booklet.py` turns the attendee table into an HTML booklet. The model covers the values
  each participant's fragment is given:
  - the website label without scheme or enclosing slashes;
  - the biography cut after 500 characters with a link to the forum profile;
  - the name in title case;
  - the order by last name, where a missing last name sorts last;
  - the newline-joined fragments.

  The HTML templates are a parameter (`render`).

Layout:

- `wrappers.dfy` holds `Option` and `Result`.
- `text.dfy` holds the Python string operations the tools rely on:
  - `lower`, `title`, `replace`, `strip`, `rsplit(' ', 1)`, `split()` and `join`;
  - string order.
- `allocate.dfy`, `attendees.dfy` and `booklet.dfy` follow the three source files.

## Model

| member | source | states |
|---|---|---|
| Allocate.RandomAllocation | allocate.py:30-44 | every thing is allocated; the groups, one per resource in resource order, partition the things; each thing maps to its group's resource; the group sizes are `GroupSizes(n, m)` |
| Allocate.GroupSize | allocate.py:34 | the group size is an integer nearest to n/m, and the even one when n/m lies halfway between two integers |
| Allocate.RoundHalfEvenUnique | allocate.py:34 | any integer nearest to n/m, even on a tie, is the group size: Python's half-to-even rounding is determined |
| Allocate.LeftClosedForm | allocate.py:35-41 | after i draws of the group size the pool holds n - i*gs things, or none once it ran dry |
| Allocate.DrawnClosedForm | allocate.py:36-39 | resource i draws min(gs, max(0, n - i*gs)) things |
| Allocate.GroupSizesSum | allocate.py:35-43 | the group sizes add up to the number of things |
| Allocate.AllocationSizesAddUp | allocate.py:30-44 | the sizes of the returned groups add up to the number of things |
| Allocate.AllocatedToAResource | allocate.py:40-43 | every allocated thing is mapped to one of the given resources |
| Allocate.ResourceGroupsAreGroups | allocate.py:40-43 | with distinct resource names, the things mapped to resource i are exactly group i, of size `GroupSizes(n, m)[i]` |
| Allocate.SingleResourceGetsAll | allocate.py:35-43 | with one resource, all things go to it |
| Allocate.NoThingsNoAllocation | allocate.py:30-44 | with no things the allocation is empty |
| Allocate.DisjointUnionSize | allocate.py:40-41 | pairwise disjoint groups have as many things together as their sizes add up to |
| Allocate.EvenSplit | test_allocate.py:4-6 | when m divides n, every resource receives exactly n/m things |
| Allocate.TenOverTwo | test_allocate.py:4-6 | 10 things over 2 resources give groups of 5 and 5 |
| Allocate.TwentyOverThree | test_allocate.py:9-13 | 20 things over 3 resources give 7, 7, 6: the last group is one smaller |
| Allocate.TwentyTwoOverThree | test_allocate.py:16-20 | 22 things over 3 resources give 7, 7, 8: the last group is one bigger |
| Allocate.NineOverSix | allocate.py:36-39 | 9 things over 6 resources give 2, 2, 2, 2, 1, 0: the pool runs dry before the last resource |
| Allocate.FiveOverTwo | allocate.py:34 | 5 things over 2 resources round 2.5 to the even 2, so the last group gets 3 |
| Text.ReplaceAbsent | booklet.py:27 | `replace` leaves a string without the pattern unchanged |
| Text.ReplaceLeading | booklet.py:27 | `replace` drops a leading occurrence of the pattern |
| Text.Strip | booklet.py:27 | the stripped string neither starts nor ends with the character and is the input without runs of it at both ends |
| Text.BeforeLastSpace | booklet.py:32 | `rsplit(' ', 1)[0]` is the prefix before the last space, or the whole string when it has no space |
| Text.SplitJoin | booklet.py:51 | splitting a newline-joined list of pieces that hold no newline gives the pieces back |
| Text.JoinContainsParts | booklet.py:51 | every piece occurs in the joined string |
| Text.JoinPlacesParts | booklet.py:51 | piece i starts after every earlier piece and its separator, is followed by the separator unless it is last, and the last piece ends the string |
| Text.JoinSeparatorAfter | booklet.py:51 | with a one-character separator, that character sits right after every piece but the last |
| Text.Title | booklet.py:37 | a letter following a letter is lower-cased, every other letter upper-cased |
| Text.TitleKeepsLetters | booklet.py:37 | title-casing changes only letter case, and applying it twice changes nothing more |
| Text.LastTokenSpec | booklet.py:99 | the last name is missing exactly for a blank name; otherwise it is a non-empty run without whitespace, preceded by whitespace or the start and followed only by whitespace |
| Text.LessEqTotal | booklet.py:100 | any two strings are ordered one way or the other |
| Text.LessEqTransitive | booklet.py:100 | string order is transitive |
| Text.LessEqAntisymmetric | booklet.py:100 | strings ordered both ways are equal |
| Attendees.ReadDirectoryStopsAtEmptyPage | attendees.py:145-153 | when page k is the first empty page, the directory is the usernames of pages 0 to k-1, in order |
| Attendees.ReadDirectoryFailsAtErrorPage | attendees.py:147-148 | a failing page before the first empty page fails the read with its status |
| Attendees.PagesAfterEmptyPageIgnored | attendees.py:150-151 | pages after the first empty page are never read |
| Attendees.UnknownSpec | attendees.py:155 | the unknown usernames are the candidates, in order and with their repetitions, whose lower case is not listed |
| Attendees.CheckUsernamesSpec | attendees.py:143-155 | check_usernames returns the candidates that no listed username matches, ignoring case, as an order-preserving subsequence that keeps every repetition |
| Attendees.SameLowerCaseAlike | attendees.py:154-155 | two candidates that differ only in case are either both reported missing or both not |
| Attendees.AllExistIffNothingMissing | attendees.py:66-68 | nothing is reported missing exactly when every candidate is listed, ignoring case |
| Attendees.AvatarUrl | attendees.py:12 | the avatar URL is the fixed prefix, the username and the fixed suffix, so the username can be read back from it |
| Attendees.AvatarUrlNamesUser | test_attendees.py:76-78 | the avatar URL contains the username, and different usernames give different URLs |
| Attendees.FetchAll | attendees.py:161 | the profiles are looked up in request order; success means every lookup succeeded, and a failure carries the status of the first failing lookup |
| Attendees.Names | attendees.py:165 | the name column exists exactly when every profile has a name key; a null name reads as "" |
| Attendees.Affiliations | attendees.py:173-174 | the affiliation column exists exactly when every profile has user field 3; otherwise the failure names the missing key |
| Attendees.CredentialsCheckedFirst | attendees.py:159-160 | asking for e-mails without a non-empty API username and key fails before any lookup, whatever the forum replies |
| Attendees.NoEmailsNoCredentials | attendees.py:158-179 | without e-mails, neither the credentials nor the e-mail listing matter, and the table has no e-mail column |
| Attendees.LookupFailureAborts | attendees.py:161 | the first failing profile lookup fails the whole table with its status |
| Attendees.AttendeeRows | attendees.py:162-176 | a table has one row per requested username, in order; it is indexed by the profile's username, uses the avatar URL of the requested name, the profile's values with "" defaults, and bio_raw as the bio |
| Attendees.MissingNameFails | attendees.py:165 | a profile without a name key fails the table with that key |
| Attendees.MissingAffiliationFails | attendees.py:173-174 | a profile without user field 3 fails the table |
| Attendees.EmailOfUnique | attendees.py:206-210 | in a listing without repeated usernames, a user's e-mail is found exactly where the listing names the user |
| Attendees.RetrieveEmailsSpec | attendees.py:200-210 | the e-mail series exists exactly when the listing is readable and either lists exactly the requested usernames in order, or nothing is requested, or it names no user twice; value i is an e-mail the listing gives requested user i, missing exactly when the listing lacks that user; it is entry i's e-mail when the listing is the request, and the user's only e-mail when the listing is unique |
| Attendees.LabelValue | attendees.py:178 | a label missing from the index gives a missing value; a present label gives the value at one of its positions |
| Attendees.AlignedValue | attendees.py:178 | each row of the assigned e-mail column holds the series value under the row's own username, and nothing when the series lacks that label |
| Attendees.EmailColumn | attendees.py:177-178 | row i's e-mail is one the listing gives the row's username; it is missing exactly when that username was not requested or is not listed; with a unique listing it is the listed e-mail |
| Attendees.MisalignedRepeatFails | attendees.py:178 | a request naming a user twice, with a profile whose username differs from the one looked up, fails on the repeated label |
| Attendees.EmailsFollowRequest | attendees.py:177-178 | when every profile has the username it was looked up by, the e-mail column is the retrieved series, taken row by row |
| Attendees.GroupNameCheckedFirst | attendees.py:52-56 | `add` fails on the group name exactly when it holds a space, whatever the credentials file and the forum would give |
| Attendees.NameToIdSpec | attendees.py:219 | the name-to-id dictionary holds exactly the listed names, each with the id of the last group listed under it |
| Attendees.GroupNameToIdSpec | attendees.py:213-223 | an unknown group name fails; a known one gives the id of the last group listed under that name |
| Attendees.AddOutcomes | attendees.py:127-140 | once the group is found, `add` reports "already members" exactly for status 422, fails with the status exactly for another status from 400 to 599, and reports every user added otherwise |
| Attendees.MissingCredentialsFails | attendees.py:188-197 | with a valid group name, `add` fails on its credentials exactly when the file is absent or lacks api_key or api_username, whatever the forum would reply |
| Attendees.AlreadyMembersIsNotFatal | attendees.py:133-137 | adding users who are already in the group is reported, not raised |
| Attendees.UnknownGroupFails | attendees.py:220-221 | adding to a group name no forum group has fails with the unknown-group error |
| Booklet.CleanWebsite | booklet.py:27 | the website label is no longer than the URL and neither starts nor ends with a slash |
| Booklet.CleanWebsiteDropsScheme | booklet.py:27 | for an `https://` or `http://` URL whose host mentions no scheme, the label is the host without enclosing slashes |
| Booklet.NoHttpsAfterHttp | booklet.py:27 | an `http://` URL whose host does not contain `https://` does not contain it either, so the first replacement leaves such a URL alone |
| Booklet.TruncateBio | booklet.py:30-33 | a bio of at most 550 characters is kept whole; a longer one keeps the prefix before the last space in its first 500 characters (all 500 when there is none) and is followed by the read-more link |
| Booklet.ShortenedBioLinksProfile | booklet.py:33 | a shortened bio names the user's profile and is at most 500 characters plus the link |
| Booklet.SortByLastName | booklet.py:99-100 | the booklet holds the same participants, ordered by last name |
| Booklet.NamelessLast | booklet.py:100 | participants without a last name come after all participants with one |
| Booklet.ViewSpec | booklet.py:35-44 | a fragment shows the username, the full website URL under a label without enclosing slashes, the title-cased name with the same letters, and a short bio as it is or a long one with a link to the profile |
| Booklet.EveryParticipantRendered | booklet.py:51 | every participant's fragment appears in the booklet body |
| Booklet.SectionPlaces | booklet.py:51 | for any template, row i's fragment starts after the earlier fragments and their newlines, and a newline follows it unless it is last |
| Booklet.FragmentsInOrder | booklet.py:51 | for any template, the participants' fragments stand in last-name order: the i-th sorted participant's fragment sits at offset Σ_{j<i}(|fragment j|+1), followed by a newline unless it is last |
| Booklet.OneLinePerParticipant | booklet.py:51 | when no fragment spans several lines, the body's lines are the fragments of the participants in last-name order |

## Left out

- Allocate.RandomAllocation: requires at least one resource. With none, Python raises `ZeroDivisionError` at allocate.py:34, and the command line accepts an empty resource list; that failure is not modelled.
- Randomness: `random.sample` becomes a nondeterministic choice. `Allocate.RandomAllocation` draws any subset of the right size, and its contract holds for every choice.
- Allocate.GroupSize: the value is exact half-to-even rounding of n/m. Python divides in floating point first; both agree unless n exceeds about 2^52.
- The pandas semantics are those of releases before 2.0 (booklet.py:103 uses `pd.np`, which 2.0 removed): `reindex` and column assignment keep a series whose index already matches, and refuse a repeated label only when something must actually be looked up.
- Reading things from stdin, the CSV output and the pandas `Series` are left out. The allocation is a map plus the list of groups.
- HTTP, JSON decoding, YAML and the file system: replies, profiles and the credentials file are input values.
- Pagination: `check_usernames` counts pages without end. The model's pages are a finite sequence, and running out of pages acts as an empty page.
- Usernames files: the click parameter that reads them (strip per line, optional existence check) is left out. So is the `check` command's printing.
- Profiles: the profile's username is assumed present. A null `user_fields` object fails like a missing one, whereas Python raises a `TypeError` rather than a `KeyError`.
- `_retrieve_emails` asserts the credentials again; after the check in `attendee_list` those asserts cannot fail, so they are not modelled separately.
- The `retrieve` command (credentials file, CSV output) is left out. The `add` command's username check and the PUT's body are left out too; only the PUT's status is an input.
- Attendees.ReadCredentials: a credentials file that parses to nothing (Python fails with `AttributeError`) and non-string values are not modelled.
- Case mapping, `title` and whitespace are ASCII only. Python applies Unicode rules.
- Booklet.SortByLastName: pandas' default quicksort is not stable, so the order of participants with equal last names is unspecified. The contract states only the order by last name and the permutation.
- Booklet: the CSV reading, the metadata YAML, the CSS and the HTML templates are left out. The fragment template is the parameter `render`; the page template and its title and subtitle are not modelled.
