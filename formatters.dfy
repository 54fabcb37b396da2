/**
 * The chatbot's response builders: a numbered list of rooms, the list of
 * missing fields, and the booking-error and confirmation-request templates.
 * Each builder is paired with a reading of its output (the lines it is made
 * of, or the fields parsed back from it).
 */
module Formatters {
  import opened Strings

  /** A room as the formatters receive it: `equipment` may be null and
      `location` may be absent. */
  datatype ListedRoom = ListedRoom(name: string, capacity: int, equipment: Option<seq<string>>, location: Option<string>)

  const NoRoomAvailable: string := "❌ Aucune salle disponible à cet horaire."

  /** Whether an entry shows the equipment line: a non-null, non-empty list. */
  predicate HasEquipment(room: ListedRoom) {
    room.equipment.Some? && |room.equipment.value| > 0
  }

  /** Whether an entry shows the location line: a non-empty location. */
  predicate HasLocation(room: ListedRoom) {
    room.location.Some? && room.location.value != ""
  }

  function EquipmentLine(room: ListedRoom): string
    requires HasEquipment(room)
  {
    "   📦 Équipements: " + Join(room.equipment.value, ", ")
  }

  function LocationLine(room: ListedRoom): string
    requires HasLocation(room)
  {
    "   📍 Localisation: " + room.location.value
  }

  function TitleLine(index: nat, room: ListedRoom): string {
    NatToString(index + 1) + ". **" + room.name + "**"
  }

  function CapacityLine(room: ListedRoom): string {
    "   👥 Capacité: " + IntToString(room.capacity) + " personne(s)"
  }

  /** The entry for the room at position `index` of the list. */
  function RoomEntry(index: nat, room: ListedRoom): string {
    TitleLine(index, room) + "\n" + CapacityLine(room)
    + (if HasEquipment(room) then "\n" + EquipmentLine(room) else "")
    + (if HasLocation(room) then "\n" + LocationLine(room) else "")
  }

  /** The entries of `rooms[from..]`, each numbered by its position in `rooms`. */
  function Entries(rooms: seq<ListedRoom>, from: nat): (es: seq<string>)
    requires from <= |rooms|
    ensures |es| == |rooms| - from
    decreases |rooms| - from
  {
    if from == |rooms| then [] else [RoomEntry(from, rooms[from])] + Entries(rooms, from + 1)
  }

  function RoomsHeaderLine(count: nat): string {
    "✅ **" + NatToString(count) + " salle(s) disponible(s):**"
  }

  /** `formatRoomsResponse`; `None` is a null list. */
  function FormatRoomsResponse(rooms: Option<seq<ListedRoom>>): (r: string)
    ensures r == NoRoomAvailable <==> rooms.None? || rooms.value == []
  {
    if rooms == None || rooms.value == [] then NoRoomAvailable
    else RoomsHeaderLine(|rooms.value|) + "\n\n" + Join(Entries(rooms.value, 0), "\n\n")
  }

  /** The text of a room holds no line break. */
  predicate SingleLineFields(room: ListedRoom) {
    && '\n' !in room.name
    && (room.equipment.Some? ==> forall k :: 0 <= k < |room.equipment.value| ==> '\n' !in room.equipment.value[k])
    && (room.location.Some? ==> '\n' !in room.location.value)
  }

  /** The lines of one entry: the numbered name, the capacity, the equipment
      line exactly when there is equipment, the location line exactly when
      there is a location. */
  function EntryLines(index: nat, room: ListedRoom): seq<string> {
    [TitleLine(index, room), CapacityLine(room)]
    + (if HasEquipment(room) then [EquipmentLine(room)] else [])
    + (if HasLocation(room) then [LocationLine(room)] else [])
  }

  /** The lines of the entries of `rooms[from..]`, a blank line between two entries. */
  function ListingLines(rooms: seq<ListedRoom>, from: nat): seq<string>
    requires from < |rooms|
    decreases |rooms| - from
  {
    if from == |rooms| - 1 then EntryLines(from, rooms[from])
    else EntryLines(from, rooms[from]) + [""] + ListingLines(rooms, from + 1)
  }

  lemma TitleLineSingle(index: nat, room: ListedRoom)
    requires '\n' !in room.name
    ensures '\n' !in TitleLine(index, room)
  {
    NoBreakInDigits(NatToString(index + 1));
  }

  lemma CapacityLineSingle(room: ListedRoom)
    ensures '\n' !in CapacityLine(room)
  {
    NoBreakInIntText(room.capacity);
  }

  lemma EquipmentLineSingle(room: ListedRoom)
    requires HasEquipment(room) && SingleLineFields(room)
    ensures '\n' !in EquipmentLine(room)
  {
    NoBreakInJoin(room.equipment.value, ", ");
  }

  /** An entry is its lines joined by line breaks. */
  lemma EntryIsJoinedLines(index: nat, room: ListedRoom)
    ensures RoomEntry(index, room) == Join(EntryLines(index, room), "\n")
  {
    var e := if HasEquipment(room) then EquipmentLine(room) else "";
    var l := if HasLocation(room) then LocationLine(room) else "";
    JoinOptionalLines(TitleLine(index, room), CapacityLine(room), e, l, HasEquipment(room), HasLocation(room));
  }

  /** Two lines, then up to two optional lines, joined by line breaks. */
  lemma JoinOptionalLines(t: string, c: string, e: string, l: string, he: bool, hl: bool)
    ensures t + "\n" + c + (if he then "\n" + e else "") + (if hl then "\n" + l else "")
      == Join([t, c] + (if he then [e] else []) + (if hl then [l] else []), "\n")
  {
    if he && hl {
      assert [t, c] + [e] + [l] == [t] + ([c] + ([e] + [l]));
      JoinCons(t, [c] + ([e] + [l]), "\n");
      JoinCons(c, [e] + [l], "\n");
      JoinCons(e, [l], "\n");
    } else if he || hl {
      var x := if he then e else l;
      assert [t, c] + (if he then [e] else []) + (if hl then [l] else []) == [t] + ([c] + [x]);
      JoinCons(t, [c] + [x], "\n");
      JoinCons(c, [x], "\n");
    } else {
      assert [t, c] + (if he then [e] else []) + (if hl then [l] else []) == [t] + [c];
      JoinCons(t, [c], "\n");
    }
  }

  lemma LinesOfEntry(index: nat, room: ListedRoom)
    requires SingleLineFields(room)
    ensures Lines(RoomEntry(index, room)) == EntryLines(index, room)
  {
    TitleLineSingle(index, room);
    CapacityLineSingle(room);
    if HasEquipment(room) {
      EquipmentLineSingle(room);
    }
    EntryIsJoinedLines(index, room);
    SplitJoin(EntryLines(index, room), '\n');
  }

  lemma {:induction false} LinesOfEntries(rooms: seq<ListedRoom>, from: nat)
    requires from < |rooms|
    requires forall k :: 0 <= k < |rooms| ==> SingleLineFields(rooms[k])
    ensures Lines(Join(Entries(rooms, from), "\n\n")) == ListingLines(rooms, from)
    decreases |rooms| - from
  {
    var e := RoomEntry(from, rooms[from]);
    LinesOfEntry(from, rooms[from]);
    assert Entries(rooms, from) == [e] + Entries(rooms, from + 1);
    if from < |rooms| - 1 {
      JoinCons(e, Entries(rooms, from + 1), "\n\n");
      LinesAroundBlank(e, Join(Entries(rooms, from + 1), "\n\n"));
      LinesOfEntries(rooms, from + 1);
    }
  }

  /** The layout of a non-empty listing, line by line: the header stating how
      many rooms there are, a blank line, then one entry per room in input
      order, numbered from 1, entries separated by a blank line. */
  lemma RoomsResponseLines(rooms: seq<ListedRoom>)
    requires rooms != []
    requires forall k :: 0 <= k < |rooms| ==> SingleLineFields(rooms[k])
    ensures Lines(FormatRoomsResponse(Some(rooms))) == [RoomsHeaderLine(|rooms|), ""] + ListingLines(rooms, 0)
  {
    var h := RoomsHeaderLine(|rooms|);
    var body := Join(Entries(rooms, 0), "\n\n");
    RoomsResponseShape(rooms);
    HeaderSingle(|rooms|);
    LinesAfterHeader(h, body);
    LinesOfEntries(rooms, 0);
  }

  lemma RoomsResponseShape(rooms: seq<ListedRoom>)
    requires rooms != []
    ensures FormatRoomsResponse(Some(rooms)) == RoomsHeaderLine(|rooms|) + "\n\n" + Join(Entries(rooms, 0), "\n\n")
  {
  }

  lemma LinesAfterHeader(h: string, body: string)
    requires '\n' !in h
    ensures Lines(h + "\n\n" + body) == [h, ""] + Lines(body)
  {
    SplitWithoutSeparator(h, '\n');
    LinesAroundBlank(h, body);
  }

  lemma HeaderSingle(count: nat)
    ensures '\n' !in RoomsHeaderLine(count)
  {
    NoBreakInDigits(NatToString(count));
  }

  /** The count in the header reads back as the number of rooms. */
  lemma RoomsHeaderCount(rooms: seq<ListedRoom>)
    requires rooms != []
    ensures var h := RoomsHeaderLine(|rooms|);
      ParseInt(h[|"✅ **"|..|h| - |" salle(s) disponible(s):**"|]) == Some(|rooms|)
  {
    var h := RoomsHeaderLine(|rooms|);
    assert h[|"✅ **"|..|h| - |" salle(s) disponible(s):**"|] == NatToString(|rooms|);
    ParseIntToString(|rooms|);
  }

  /** The k-th entry of a listing is numbered k + 1 and names the k-th room. */
  lemma ListingNumbering(rooms: seq<ListedRoom>, from: nat, k: nat)
    requires from <= k < |rooms|
    ensures Entries(rooms, from)[k - from] == RoomEntry(k, rooms[k])
    ensures StartsWith(RoomEntry(k, rooms[k]), NatToString(k + 1) + ". **" + rooms[k].name + "**")
    decreases k - from
  {
    if k > from {
      ListingNumbering(rooms, from + 1, k);
    }
    EntryStartsWithTitle(k, rooms[k]);
  }

  lemma EntryStartsWithTitle(index: nat, room: ListedRoom)
    ensures StartsWith(RoomEntry(index, room), TitleLine(index, room))
  {
    var t := TitleLine(index, room);
    assert RoomEntry(index, room)[..|t|] == t;
  }

  const MissingInfoIntro: string := "Pour continuer, " + "j'ai besoin des " + "informations " + "suivantes:"

  function Bullet(field: string): string {
    "• " + field
  }

  function Bullets(fields: seq<string>): (bs: seq<string>)
    ensures |bs| == |fields|
  {
    seq(|fields|, i requires 0 <= i < |fields| => Bullet(fields[i]))
  }

  /** `formatMissingInfo`. */
  function FormatMissingInfo(fields: seq<string>): (r: string)
    ensures r == "" <==> fields == []
  {
    if fields == [] then "" else MissingInfoIntro + "\n" + Join(Bullets(fields), "\n")
  }

  /** A non-empty request is the introduction line followed by one bullet line
      per missing field, in order. */
  lemma MissingInfoLines(fields: seq<string>)
    requires fields != []
    requires forall k :: 0 <= k < |fields| ==> '\n' !in fields[k]
    ensures Lines(FormatMissingInfo(fields)) == [MissingInfoIntro] + Bullets(fields)
  {
    var bs := Bullets(fields);
    assert forall k :: 0 <= k < |bs| ==> '\n' !in bs[k] by {
      forall k | 0 <= k < |bs| ensures '\n' !in bs[k] {
        assert bs[k] == "• " + fields[k];
      }
    }
    LinesCons(MissingInfoIntro, Join(bs, "\n"));
    SplitJoin(bs, '\n');
  }

  const BookingErrorIntro: string := "❌ **Réservation échouée pour "
  const BookingErrorReason: string := "**\n\nRaison: "

  /** `formatBookingError`. */
  function FormatBookingError(roomName: string, reason: string): string {
    BookingErrorIntro + roomName + BookingErrorReason + reason
  }

  /** Reads the room name and the reason back from a booking-error message. */
  function ParseBookingError(msg: string): Option<(string, string)> {
    if !StartsWith(msg, BookingErrorIntro) then None
    else
      var rest := msg[|BookingErrorIntro|..];
      match FindFirst(rest, BookingErrorReason)
      case None => None
      case Some(k) => Some((rest[..k], rest[k + |BookingErrorReason|..]))
  }

  /** The room name and the reason are recovered verbatim, for any room name
      without '*' and any reason. */
  lemma BookingErrorRoundTrip(roomName: string, reason: string)
    requires '*' !in roomName
    ensures ParseBookingError(FormatBookingError(roomName, reason)) == Some((roomName, reason))
  {
    var msg := FormatBookingError(roomName, reason);
    assert msg[..|BookingErrorIntro|] == BookingErrorIntro;
    var rest := msg[|BookingErrorIntro|..];
    assert rest == roomName + BookingErrorReason + reason;
    FindFirstAfter(roomName, BookingErrorReason, reason);
    assert rest[..|roomName|] == roomName;
    assert rest[|roomName| + |BookingErrorReason|..] == reason;
  }

  const ProposalIntro: string := "Je vous propose la salle **"
  const ProposalCapacity: string := "** ("
  const ProposalDate: string := " personnes).\n\nPour la date: **"
  const ProposalQuestion: string := "**\n\nConfirmez-vous " + "cette réservation? " + "(oui/non)"

  /** `formatConfirmationRequest`. */
  function FormatConfirmationRequest(roomName: string, capacity: int, date: string): string {
    ProposalIntro + (roomName + (ProposalCapacity + (IntToString(capacity) + (ProposalDate + (date + ProposalQuestion)))))
  }

  datatype Proposal = Proposal(roomName: string, capacity: int, date: string)

  /** Reads the three fields back from a confirmation request. */
  function ParseConfirmationRequest(msg: string): Option<Proposal> {
    if !StartsWith(msg, ProposalIntro) then None
    else
      var s1 := msg[|ProposalIntro|..];
      match FindFirst(s1, ProposalCapacity)
      case None => None
      case Some(i) =>
        match ParseCapacityAndDate(s1[i + |ProposalCapacity|..])
        case None => None
        case Some(cd) => Some(Proposal(s1[..i], cd.0, cd.1))
  }

  /** The part of a confirmation request after the room name. */
  function ParseCapacityAndDate(s2: string): Option<(int, string)> {
    match FindFirst(s2, ProposalDate)
    case None => None
    case Some(j) =>
      match ParseDate(s2[j + |ProposalDate|..])
      case None => None
      case Some(d) =>
        match ParseInt(s2[..j])
        case None => None
        case Some(c) => Some((c, d))
  }

  /** The part of a confirmation request after the capacity. */
  function ParseDate(s3: string): Option<string> {
    match FindFirst(s3, ProposalQuestion)
    case None => None
    case Some(k) =>
      if s3[k + |ProposalQuestion|..] != "" then None else Some(s3[..k])
  }

  lemma ParseDateRoundTrip(date: string)
    requires '*' !in date
    ensures ParseDate(date + ProposalQuestion) == Some(date)
  {
    assert ProposalQuestion[0] == '*';
    assert date + (ProposalQuestion + "") == date + ProposalQuestion;
    CutAfterFirst(date, ProposalQuestion, "");
  }

  lemma ParseCapacityAndDateRoundTrip(capacity: int, date: string)
    requires '*' !in date
    ensures ParseCapacityAndDate(IntToString(capacity) + (ProposalDate + (date + ProposalQuestion))) == Some((capacity, date))
  {
    NoSpaceInIntText(capacity);
    ParseIntToString(capacity);
    ParseDateRoundTrip(date);
    ParseCapacityAndDateOf(IntToString(capacity), date + ProposalQuestion, capacity, date);
  }

  lemma ParseCapacityAndDateOf(cap: string, s3: string, c: int, d: string)
    requires ' ' !in cap && ParseInt(cap) == Some(c) && ParseDate(s3) == Some(d)
    ensures ParseCapacityAndDate(cap + (ProposalDate + s3)) == Some((c, d))
  {
    assert ProposalDate[0] == ' ';
    CutAfterFirst(cap, ProposalDate, s3);
  }

  /** The room name, the capacity and the date are recovered verbatim, for
      any room name and date without '*'. */
  lemma ConfirmationRequestRoundTrip(roomName: string, capacity: int, date: string)
    requires '*' !in roomName && '*' !in date
    ensures ParseConfirmationRequest(FormatConfirmationRequest(roomName, capacity, date)) == Some(Proposal(roomName, capacity, date))
  {
    var s2 := IntToString(capacity) + (ProposalDate + (date + ProposalQuestion));
    ParseCapacityAndDateRoundTrip(capacity, date);
    ParseAfterIntro(roomName, s2);
  }

  lemma ParseAfterIntro(roomName: string, s2: string)
    requires '*' !in roomName
    ensures ParseConfirmationRequest(ProposalIntro + (roomName + (ProposalCapacity + s2))) ==
      match ParseCapacityAndDate(s2)
      case None => None
      case Some(cd) => Some(Proposal(roomName, cd.0, cd.1))
  {
    var s1 := roomName + (ProposalCapacity + s2);
    var msg := ProposalIntro + s1;
    assert msg[..|ProposalIntro|] == ProposalIntro;
    assert msg[|ProposalIntro|..] == s1;
    assert ProposalCapacity[0] == '*';
    CutAfterFirst(roomName, ProposalCapacity, s2);
  }

  /** The pieces on either side of the first `w` in `a + w + b`. */
  lemma CutAfterFirst(a: string, w: string, b: string)
    requires w != [] && w[0] !in a
    ensures FindFirst(a + (w + b), w) == Some(|a|)
    ensures (a + (w + b))[..|a|] == a && (a + (w + b))[|a| + |w|..] == b
  {
    assert a + (w + b) == a + w + b;
    FindFirstAfter(a, w, b);
  }

  lemma NoSpaceInIntText(i: int)
    ensures ' ' !in IntToString(i)
  {
    if i >= 0 {
      NoSpaceInDigits(NatToString(i));
    } else {
      NoSpaceInDigits(NatToString(-i));
    }
  }

  lemma NoSpaceInDigits(s: string)
    requires forall i :: 0 <= i < |s| ==> IsDigit(s[i])
    ensures ' ' !in s
  {
  }
}
