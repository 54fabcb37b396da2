# Room-booking assistant: verified model of its sequential core

This project models in Dafny the pure and sequential logic of a chat-based
meeting-room booking assistant, and proves properties of that model. It has
four parts, one module each, on top of a module of JavaScript string
primitives:

- `Ranking` (`ranking.dfy`) covers the room search `findRoomsByCarac`. The
  candidates returned by the characteristics search are asked one by one
  whether they are free. Each free room is scored by equipment match,
  capacity fit, and name and location mentions. The free rooms are sorted by
  descending score with a stable sort, and the answer is rendered as a chat
  message. As in the source, the search is imperative: a loop pushes scored
  rooms onto a list and each score is built up term by term. The source sorts
  with the built-in stable `Array.prototype.sort` (findRoomsByCarac.ts:72).
  The model sorts an array in place by insertion instead. The two share only
  what the contract states: descending scores, stability and the same
  elements, not the algorithm.
- `Proposal` (`proposal.dfy`) covers the pure helpers of the confirmation
  card:
  - `parseConfirmationText`: the six regular expressions run through a
    backtracking matcher. The matcher is proved sound and complete against
    a declarative matching relation;
  - `isProposalFormat`;
  - `getEquipmentIcon`, with the icons as an enumeration;
  - the short date and the short time shown on the card.
- `Formatters` (`formatters.dfy`) covers the response builders. The numbered
  room list and the missing-fields list are read back line by line. The
  booking-error and confirmation-request templates are parsed back to their
  arguments.
- `Auth` (`auth.dfy`) covers the guards of the credential and session helpers:
  - registration validation, with blank fields, the password length in UTF-16
    units and the e-mail pattern;
  - the login blank-field guard;
  - the `salt:hash` split guard;
  - the issue and expiry arithmetic of session tokens.
- `Strings` (`strings.dfy`) holds the JavaScript string operations the four
  parts use. These are `trim` and the white space of `\s`, `includes`,
  `toLowerCase`, `split` on one character, `join`, and the decimal text of
  integers. It also proves the laws they obey.

The services whose code is not modelled enter as parameters:

- Availability is an oracle from a room id to a `Call<bool>`, whose `Threw`
  case is an exception. No rule for overlapping bookings is assumed.
- The characteristics search result is a `Call<Option<seq<Room>>>`.
- The clock is a number of milliseconds.
- Password hashing and comparison is a predicate parameter.
- The decoded token payload is an `Option<Token>`, where `None` means
  decoding threw.

Equal scores keep the order in which the search returned the rooms, because
`Array.prototype.sort` is stable (findRoomsByCarac.ts:72).
`Ranking.StableRanking` states this.

## Model

| member | source | states |
|---|---|---|
| Ranking.FindRoomsByCarac | src/lib/chat-tools/findRoomsByCarac.ts:31-89 | A failed service call gives the error outcome. A null or empty candidate list gives "no match on criteria". Otherwise, when every oracle call answers, no free room gives "none available"; if some rooms are free, the result is the free scored rooms in a stable descending ranking. |
| Ranking.ComputeScore | src/lib/chat-tools/findRoomsByCarac.ts:48-63 | The score built up with `+=` equals the sum of the equipment, capacity, name and location terms. |
| Ranking.MatchCountAll | src/lib/chat-tools/findRoomsByCarac.ts:49-51 | Every requested item, counted with repetition, scores exactly when the room lists all of them. |
| Ranking.MatchCountNone | src/lib/chat-tools/findRoomsByCarac.ts:49-51 | No requested item scores exactly when the room lists none of them. |
| Ranking.CapacityFitRange | src/lib/chat-tools/findRoomsByCarac.ts:52-57 | For a requested and a room capacity, an undersized room or a zero capacity on either side adds 0. Otherwise the fit lies between 1 and 5. |
| Ranking.CapacityTermRange | src/lib/chat-tools/findRoomsByCarac.ts:52-57 | The capacity term is 0 exactly when no capacity is requested, either capacity is zero or the room is undersized. It never exceeds 5. |
| Ranking.CapacityFitExact | src/lib/chat-tools/findRoomsByCarac.ts:52-57 | The capacity term is 5 exactly on an exact fit. |
| Ranking.CapacityFitMonotone | src/lib/chat-tools/findRoomsByCarac.ts:52-57 | A larger surplus never earns a larger capacity term. |
| Ranking.ScoreBounds | src/lib/chat-tools/findRoomsByCarac.ts:47-63 | Every score is at least 0. It is at most 10 per requested item plus 10. |
| Ranking.MentionsIgnoresCase | src/lib/chat-tools/findRoomsByCarac.ts:58-63 | The name and location bonuses do not change when the room field or the criterion is lower-cased first. |
| Ranking.KeptMembership | src/lib/chat-tools/findRoomsByCarac.ts:43-66 | A scored room is kept exactly when the search returned it and the oracle reported it free, with its score. |
| Ranking.SortByScore | src/lib/chat-tools/findRoomsByCarac.ts:72 | The in-place sort leaves the array in non-increasing score order. Every run of equal scores keeps its original order. |
| Ranking.StableRankingIsPermutation | src/lib/chat-tools/findRoomsByCarac.ts:72 | A stable ranking has exactly the elements of what it ranks, with multiplicity. |
| Ranking.RankedMembership | src/lib/chat-tools/findRoomsByCarac.ts:43-72 | A room appears in the sorted result exactly when it was a candidate and free. |
| Ranking.Response | src/lib/chat-tools/findRoomsByCarac.ts:39-89 | The answer starts with ✅ exactly when rooms were found, and with another character for the three failure outcomes. |
| Ranking.FailureMessagesDiffer | src/lib/chat-tools/findRoomsByCarac.ts:39-89 | "No room matches the criteria", "no room is free" and "an error occurred" are three distinct messages. |
| Ranking.HeaderCount | src/lib/chat-tools/findRoomsByCarac.ts:80 | The number in the header reads back as the number of ranked rooms. |
| Ranking.FoundResponseLines | src/lib/chat-tools/findRoomsByCarac.ts:80-85 | A found answer is the header line, a blank line, then exactly one bullet line per ranked room, in ranking order. |
| Proposal.StripDoubleStars | src/components/chat/ConfirmationCard.tsx:32 | After removing every `**` from left to right, no `**` remains. The result only has characters of the input and keeps a first character other than `*`. |
| Proposal.StripWithoutDoubleStars | src/components/chat/ConfirmationCard.tsx:32 | A text without `**` is left unchanged. |
| Proposal.StripIdempotent | src/components/chat/ConfirmationCard.tsx:32 | Removing `**` a second time changes nothing. |
| Proposal.NoDoubleStarIff | src/components/chat/ConfirmationCard.tsx:32 | "No two neighbouring stars" is the same as `includes("**")` being false. |
| Proposal.MatchFrom | src/components/chat/ConfirmationCard.tsx:34-39 | A capture the backtracking matcher returns comes from a derivation of the pattern, and it holds no line terminator. |
| Proposal.MatchComplete | src/components/chat/ConfirmationCard.tsx:34-39 | Whenever the pattern derives from a position, the matcher succeeds there. |
| Proposal.FirstMatchFrom | src/components/chat/ConfirmationCard.tsx:34-39 | A match found by scanning start positions left to right derives the pattern from one of them. |
| Proposal.FirstMatchLeftmost | src/components/chat/ConfirmationCard.tsx:34-39 | The scan returns the matcher's result at the leftmost start from which the pattern derives. |
| Proposal.LazyFirstFit | src/components/chat/ConfirmationCard.tsx:34-39 | `(.*?)` is lazy: its group ends at the first position from which the rest of the expression derives. |
| Proposal.SegmentBetween | src/components/chat/ConfirmationCard.tsx:34-35 | For `m\s*(.*?)\s*w`, a text where `m`'s first character does not occur before `m`, and `m` is followed by d and then w, extracts d trimmed, when d has no line break and no first character of w. |
| Proposal.SegmentAfterKey | src/components/chat/ConfirmationCard.tsx:36-37 | For `m\s*key\s*(.*?)\s*w`, white space between `m` and `key`, then d and w as above, extracts d trimmed. |
| Proposal.NameOfCard | src/components/chat/ConfirmationCard.tsx:34 | The name is the text between the first ✅ and the next 🆔, trimmed. |
| Proposal.LocationOfCard | src/components/chat/ConfirmationCard.tsx:35 | The location is the text between the first 📍 and the next 👥, trimmed. |
| Proposal.CapacityOfCard | src/components/chat/ConfirmationCard.tsx:36 | The capacity is the text between "Capacite:" after the first 👥 and the next 🛠️, trimmed. |
| Proposal.EquipmentOfCard | src/components/chat/ConfirmationCard.tsx:37 | The equipment text is the text between "Equipements:" after the first 🛠️ and the next 📅, trimmed. |
| Proposal.DateOfCard | src/components/chat/ConfirmationCard.tsx:38 | The date is the text between the first 📅 and the next ⏰, trimmed. |
| Proposal.TimeOfLine | src/components/chat/ConfirmationCard.tsx:39-40 | The time is the rest of the line after the first ⏰ and its white space, up to a line feed or the end of the text, trimmed. |
| Proposal.FirstMatchComplete | src/components/chat/ConfirmationCard.tsx:34-39 | If the pattern derives from any start position, the scan finds a match. |
| Proposal.SegmentFoundIff | src/components/chat/ConfirmationCard.tsx:34-39 | A segment is present exactly when its expression derives somewhere in the text. |
| Proposal.Segment | src/components/chat/ConfirmationCard.tsx:34-39 | An extracted segment is trimmed and has no line break. It holds no `**` when the text holds none. Its value for each of the six expressions is stated by the lemmas below. |
| Proposal.CharLiteralNeeded | src/components/chat/ConfirmationCard.tsx:34-39 | An expression with a one-character marker finds nothing in a text without that character. |
| Proposal.Equipments | src/components/chat/ConfirmationCard.tsx:41 | An absent or empty equipment segment gives no items. Every item is trimmed and free of commas. |
| Proposal.EquipmentsOfJoined | src/components/chat/ConfirmationCard.tsx:37-41 | Trimmed, non-empty items without commas, written joined by ", ", are read back in order and unchanged. |
| Proposal.ParseConfirmationText | src/components/chat/ConfirmationCard.tsx:30-49 | A parsed card always has a non-empty date and a non-empty time. |
| Proposal.Assemble | src/components/chat/ConfirmationCard.tsx:34-45 | A card exists exactly when the date and time segments are present and non-empty. The name falls back to "Salle" when its segment is absent or empty. |
| Proposal.ParsedFieldsTrimmed | src/components/chat/ConfirmationCard.tsx:34-41 | Every field of a parsed card, each equipment item included, is trimmed. The time holds no line break. |
| Proposal.ParsedFieldsHaveNoDoubleStar | src/components/chat/ConfirmationCard.tsx:32-41 | No field of a parsed card holds `**`. |
| Proposal.ParseNeedsClockAndCalendar | src/components/chat/ConfirmationCard.tsx:38-43 | A text without ⏰, or without 📅, parses to nothing. |
| Proposal.NameDefaultsToSalle | src/components/chat/ConfirmationCard.tsx:34 | Without both ✅ and 🆔, a parsed card is named "Salle". |
| Proposal.IsProposalFormatIff | src/components/chat/ConfirmationCard.tsx:51-53 | The format test holds exactly when the text contains ✅, 🆔 and ⏰. |
| Proposal.ParsedHasClock | src/components/chat/ConfirmationCard.tsx:38-53 | Both a parsed card and a text in proposal format contain ⏰. |
| Proposal.EquipmentIconIsFirstFamily | src/components/chat/ConfirmationCard.tsx:21-28 | The icon is the first keyword family found in the lower-cased name, in the order wifi, display, video, climate, else the check mark. |
| Proposal.EquipmentIconIgnoresCase | src/components/chat/ConfirmationCard.tsx:22 | Names that lower-case alike get the same icon. |
| Proposal.EquipmentIconOfLower | src/components/chat/ConfirmationCard.tsx:22 | Lower-casing the name first does not change the icon. |
| Proposal.ShortDate | src/components/chat/ConfirmationCard.tsx:67 | The short date is the whole date, or a non-empty word without spaces. |
| Proposal.ShortDateSecondWord | src/components/chat/ConfirmationCard.tsx:67 | For a date "a b" or "a b …" whose second piece b is non-empty, such as "Lundi 12/05/2025", the short date is b. |
| Proposal.ShortDateEmptySecondPiece | src/components/chat/ConfirmationCard.tsx:67 | A date whose second piece is empty ("a ", "a  b") is shown whole. |
| Proposal.ShortDateOneWord | src/components/chat/ConfirmationCard.tsx:67 | A date without a space is shown whole. |
| Proposal.ShortTime | src/components/chat/ConfirmationCard.tsx:68 | The short time is trimmed and has no "(". |
| Proposal.ShortTimeDropsRemark | src/components/chat/ConfirmationCard.tsx:68 | "a(b)" with no "(" in a shortens to a, trimmed. |
| Proposal.ShortTimeWithoutRemark | src/components/chat/ConfirmationCard.tsx:68 | A time without "(", such as "14:00 à 15:00", is only trimmed. |
| Formatters.FormatRoomsResponse | src/lib/formatters.ts:20-40 | The "no room available" message is returned exactly for a null or empty list. |
| Formatters.RoomsResponseLines | src/lib/formatters.ts:25-39 | A non-empty list renders as the header line, a blank line, then the entries' lines with a blank line between two entries. |
| Formatters.LinesOfEntries | src/lib/formatters.ts:25-37 | Entries joined by a blank line split into their lines with one blank line between consecutive entries. |
| Formatters.LinesOfEntry | src/lib/formatters.ts:26-35 | An entry has, in order: its numbered name line, its capacity line, the equipment line exactly when the list is non-null and non-empty, and the location line exactly when the location is non-empty. |
| Formatters.EntryIsJoinedLines | src/lib/formatters.ts:27-35 | An entry is its lines joined by line breaks. Equipment items are joined by ", ". |
| Formatters.RoomsHeaderCount | src/lib/formatters.ts:39 | The number in the header reads back as the length of the list. |
| Formatters.ListingNumbering | src/lib/formatters.ts:35 | The k-th entry is numbered k + 1 and names the k-th room. |
| Formatters.FormatMissingInfo | src/lib/formatters.ts:88-93 | The message is empty exactly when no field is missing. |
| Formatters.MissingInfoLines | src/lib/formatters.ts:91-92 | A non-empty list renders as the fixed prefix line, then one "• field" line per field, in order. |
| Formatters.BookingErrorRoundTrip | src/lib/formatters.ts:64-66 | The room name and the reason are read back verbatim from the booking-error message. |
| Formatters.ConfirmationRequestRoundTrip | src/lib/formatters.ts:75-81 | The room name, the capacity and the date are read back verbatim from the confirmation request. |
| Auth.BlankIffAllSpaces | src/lib/auth.ts:78 | A field is empty after `trim` exactly when it is all white space. |
| Auth.Utf16LengthBounds | src/lib/auth.ts:82 | The length the password rule measures is between one and two units per character. |
| Auth.EmailShapeIffPattern | src/lib/auth.ts:86 | The computed e-mail test holds exactly when the e-mail matches `^[^\s@]+@[^\s@]+\.[^\s@]+$`. |
| Auth.RegistrationErrorMessage | src/lib/auth.ts:78-88 | Each failed check throws a non-empty message. |
| Auth.RegistrationMessagesDiffer | src/lib/auth.ts:78-88 | The three failed checks throw three different messages, so the message tells which check failed. |
| Auth.ValidateRegistration | src/lib/auth.ts:77-88 | A blank name, e-mail or password gives the missing-field error, checked first. Otherwise a password under 8 UTF-16 units gives the too-short error. |
| Auth.RegistrationAccepted | src/lib/auth.ts:77-88 | Validation passes exactly when the name and password are not blank, the password has at least 8 units, and the e-mail matches the pattern. |
| Auth.BlankPasswordIsMissingField | src/lib/auth.ts:78-84 | A password of eight spaces is refused as a missing field, not as too short. |
| Auth.LoginGuard | src/lib/auth.ts:154-156 | Login is refused before any lookup exactly when the e-mail or the password is blank. |
| Auth.RegisteredCredentialsPassLoginGuard | src/lib/auth.ts:77-88 | Credentials that pass registration validation pass the login guard. |
| Auth.SplitStoredHash | src/lib/auth.ts:39-43 | A salt and a hash are returned only when both are non-empty and free of ':', and the stored text starts with `salt:hash`. Text without ':' gives nothing. |
| Auth.SplitStoredHashRoundTrip | src/lib/auth.ts:29-43 | The `salt:hash` text that hashing stores splits back into its salt and hash. |
| Auth.VerifyPassword | src/lib/auth.ts:35-54 | A password is accepted exactly when the stored text splits into a usable salt and hash and the derivation matches. |
| Auth.VerifyStoredPassword | src/lib/auth.ts:19-54 | For the `salt:hash` text that hashing stores, verification answers exactly what the derivation answers. |
| Auth.EmptySaltRefused | src/lib/auth.ts:39-43 | A stored value with an empty salt is refused for every password. |
| Auth.GenerateSessionTokenAsWritten | src/lib/auth.ts:233-238 | With two clock reads, exp − iat is 7 days plus the seconds the clock moved between the reads. It is at least 7 days when the clock moved forward, at most 7 days when it was set back, and exactly 7 days when both reads fall in the same second. |
| Auth.TwoClockReadsDrift | src/lib/auth.ts:236-237 | Reads at 999 ms and 1000 ms give exp − iat = 7 days + 1 s. |
| Auth.ClockSetBackShortens | src/lib/auth.ts:236-237 | Reads at 1000 ms and then 999 ms, after the clock is set back, give exp − iat = 7 days − 1 s. |
| Auth.GenerateSessionToken | src/lib/auth.ts:233-238 | With one clock read, the token carries the user id, iat is the current second, and exp = iat + 604800. |
| Auth.DecodeSessionToken | src/lib/auth.ts:246-259 | The token is refused exactly when decoding fails, or exp is present, non-zero and before the current second. Otherwise it is returned unchanged. |
| Auth.ExpiresAfterItsLastSecond | src/lib/auth.ts:251 | A token whose exp is the current second is accepted. |
| Auth.FreshTokenLifetime | src/lib/auth.ts:233-253 | A token issued at time t ≥ 0 is accepted exactly while the current second is at most its issue second plus 7 days. |

## Left out

- Unicode case mapping beyond ASCII and Latin-1 is not modelled. `Strings.Lower` lower-cases A–Z and À–Þ (except ×) only, which covers the keywords and French names the helpers compare.
- Positions in UTF-16 code units are not modelled. Strings are sequences of Unicode scalar values. `includes`, `trim`, `split` and the six expressions give the same results on well-formed text, and only the password length rule is measured in UTF-16 units (`Auth.Utf16Length`).
- PBKDF2, `randomBytes`, `timingSafeEqual` and its exception on buffers of different lengths are foreign code. The derivation and comparison are the `matches` parameter of `Auth.VerifyPassword`.
- The base64 and JSON encoding and decoding of session tokens is not modelled. `Auth.DecodeSessionToken` receives the decoded payload, and an `exp` that is not an integer (a string, a fraction) is not represented.
- The store queries of `registerUser` and `authenticateUser`, sessions, cookies and HTTP routes are I/O and are not modelled.
- The date-fns formatting of the slot in `findRoomsByCarac` is a formatting library, so the formatted day and times are the `Slot` parameter. An invalid start time, which makes the formatting throw into the error message, is not modelled.
- The `console.error` logging in the error path is I/O.
- `checkRoomAvailability` and `findRoomsByCharacteristics` are external services. They are parameters: the oracle takes only the room id, because the start time and duration are the same for every call of one search.
- Capacities and scores are exact numbers. JavaScript numbers may also be fractional, `NaN` or printed in exponent form at 1e21 and above, and a room field that is null (a null location would throw on `toLowerCase`) is not represented.
- The `"Aucun"` branch of `formatRoomsResponse` for an equipment value that is not an array cannot be reached in the model. There, equipment is always a list or null.
- `formatBookingSuccess` is not modelled, because it depends on `Date` and a French-locale time format.
- The JSX of the confirmation card, and every other React component, is UI.
- The `try`/`catch` of `parseConfirmationText` is not modelled, because none of the modelled steps can throw.
- The second capture group `(\n|$)` of the time expression is matched but never read, so the matcher records only the first group.
- No round trip between the text of `proposeRoomToUser` and `parseConfirmationText` is stated. That text uses other markers and is not part of this model.
- Proposal.NameOfCard, Proposal.LocationOfCard, Proposal.DateOfCard, Proposal.CapacityOfCard, Proposal.EquipmentOfCard: the value is stated only for a field without a line break or the first character of its closing sign. Otherwise the leftmost match starts at a later opening sign or not at all, and these lemmas do not say where.
- Proposal.TimeOfLine: stated only for a non-empty rest of line whose first character after the white space is not white space, since `\s*` may otherwise run on past the line feed.
- Proposal.SegmentBetween, Proposal.SegmentAfterKey: stated under the same conditions as the instances above.
- Ranking.FoundResponseLines: stated only for room names, locations and slot texts without line breaks, since a line break inside a field adds lines.
- Formatters.RoomsResponseLines, Formatters.LinesOfEntry, Formatters.LinesOfEntries: stated only for rooms whose name, equipment items and location have no line break, for the same reason.
- Formatters.MissingInfoLines: stated only for field names without line breaks.
- Formatters.BookingErrorRoundTrip: stated only for room names without '*', since a '*' in the name can make the reading stop early.
- Formatters.ConfirmationRequestRoundTrip: stated only for room names and dates without '*', for the same reason.
- Auth.FreshTokenLifetime: stated for issue times of at least 0 ms, the clock values `Date.now()` gives.

## Findings

| source | as written | input that shows it | evidently intended | confidence | as-written member | corrected member |
|---|---|---|---|---|---|---|
| src/lib/auth.ts:236-237 | `iat` and `exp` each read `Date.now()` separately | `iat` read at 999 ms and `exp` read at 1000 ms give exp − iat = 604801 s; a clock set back from 1000 ms to 999 ms gives 604799 s | exp = iat + 604800 s, the 7 days of the comment | low; not executed | Auth.TwoClockReadsDrift | Auth.GenerateSessionToken |
