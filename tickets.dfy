/**
 * The edits the ticket buttons make to the embed of a ticket's log message:
 * joining adds the officer to the "Officers in ticket" field, closing drops
 * that field and appends who closed the ticket and why.
 */
module Tickets {
  import opened Wrappers
  import Strings
  import Buttons

  datatype EmbedField = EmbedField(name: string, value: string, inline: bool)

  const OfficersName: string := "Officers in ticket"
  const NoOfficers: string := "No officers yet"

  /** `<@!${id}>`. */
  function Mention(userId: string): (m: string)
    ensures '\n' !in userId ==> '\n' !in m
    ensures m != NoOfficers
  {
    var m := "<@!" + userId + ">";
    assert m[0] == '<';
    m
  }

  /** The position of the first field named `name`, or `|fields|` when there is none. */
  function FirstNamed(fields: seq<EmbedField>, name: string): (i: nat)
    ensures i <= |fields|
    ensures forall j :: 0 <= j < i ==> fields[j].name != name
    ensures i < |fields| ==> fields[i].name == name
  {
    if fields == [] || fields[0].name == name then 0 else 1 + FirstNamed(fields[1..], name)
  }

  /** `fields.find(field => field.name === name)`: the first field with that name. */
  function Find(fields: seq<EmbedField>, name: string): (r: Option<EmbedField>)
    ensures r.None? <==> forall i :: 0 <= i < |fields| ==> fields[i].name != name
    ensures r.Some? ==> exists i :: (0 <= i < |fields| && fields[i] == r.value && fields[i].name == name
      && forall j :: 0 <= j < i ==> fields[j].name != name)
  {
    var i := FirstNamed(fields, name);
    if i < |fields| then Some(fields[i]) else None
  }

  // -------------------------------------------------------------------- join

  /**
   * The officers already listed: the field's value split on newlines, none
   * when the placeholder is among them or the field is absent.
   */
  function StaffList(fields: seq<EmbedField>): (staff: seq<string>)
    ensures forall i :: 0 <= i < |staff| ==> '\n' !in staff[i]
    ensures NoOfficers !in staff
    ensures Find(fields, OfficersName).None? ==> staff == []
    ensures Find(fields, OfficersName).Some? && NoOfficers !in Strings.Split(Find(fields, OfficersName).value.value, '\n') ==>
      staff == Strings.Split(Find(fields, OfficersName).value.value, '\n')
    ensures Find(fields, OfficersName).Some? && NoOfficers in Strings.Split(Find(fields, OfficersName).value.value, '\n') ==>
      staff == []
  {
    var field := Find(fields, OfficersName);
    var list := if field.Some? then Strings.Split(field.value.value, '\n') else [];
    if NoOfficers in list then [] else list
  }

  /** The list with the mention appended unless it is already there. */
  function JoinedStaff(staff: seq<string>, mention: string): (r: seq<string>)
    ensures mention in r
    ensures |staff| <= |r| && r[..|staff|] == staff
    ensures mention in staff ==> r == staff
    ensures mention !in staff ==> r == staff + [mention]
  {
    if mention in staff then staff else staff + [mention]
  }

  /** The `let staffList` / `push` sequence of the join handler. */
  method CollectStaff(fields: seq<EmbedField>, userId: string) returns (staffList: seq<string>)
    ensures staffList == JoinedStaff(StaffList(fields), Mention(userId))
  {
    var staffField := Find(fields, OfficersName);
    staffList := if staffField.Some? then Strings.Split(staffField.value.value, '\n') else [];
    if NoOfficers in staffList {
      staffList := [];
    }
    var mention := Mention(userId);
    if mention !in staffList {
      staffList := staffList + [mention];
    }
  }

  /** `staffList.length > 0 ? staffList.join('\n') : 'No officers yet'`. */
  function OfficersValue(staff: seq<string>): string
  {
    if |staff| > 0 then Strings.Join(staff, '\n') else NoOfficers
  }

  /** The `fields.map`: every officers field is rebuilt with `value`; every other field stays in place. */
  function ReplaceOfficers(fields: seq<EmbedField>, value: string): (r: seq<EmbedField>)
    ensures |r| == |fields|
    ensures forall i :: 0 <= i < |fields| && fields[i].name == OfficersName ==> r[i] == EmbedField(OfficersName, value, true)
    ensures forall i :: 0 <= i < |fields| && fields[i].name != OfficersName ==> r[i] == fields[i]
  {
    seq(|fields|, i requires 0 <= i < |fields| =>
      if fields[i].name == OfficersName then EmbedField(OfficersName, value, true) else fields[i])
  }

  function JoinedFields(fields: seq<EmbedField>, userId: string): seq<EmbedField>
  {
    ReplaceOfficers(fields, OfficersValue(JoinedStaff(StaffList(fields), Mention(userId))))
  }

  datatype JoinError = ThreadNotFound | LogChannelMissing | LogMessageMissing | JoinWithoutEmbed

  /**
   * The join handler from the point its inputs are fetched: the private
   * thread, the log channel, and the log message with its embed's fields
   * (`None` for a missing message; `Some(None)` for a message without an embed).
   */
  method JoinTicket(threadIsPrivate: bool, logChannelFound: bool, logMessage: Option<Option<seq<EmbedField>>>, userId: string)
    returns (r: Result<seq<EmbedField>, JoinError>)
    ensures !threadIsPrivate ==> r == Failure(ThreadNotFound)
    ensures threadIsPrivate && !logChannelFound ==> r == Failure(LogChannelMissing)
    ensures threadIsPrivate && logChannelFound && logMessage.None? ==> r == Failure(LogMessageMissing)
    ensures threadIsPrivate && logChannelFound && logMessage == Some(None) ==> r == Failure(JoinWithoutEmbed)
    ensures threadIsPrivate && logChannelFound && logMessage.Some? && logMessage.value.Some? ==>
      r == Success(JoinedFields(logMessage.value.value, userId))
  {
    if !threadIsPrivate {
      return Failure(ThreadNotFound);
    }
    if !logChannelFound {
      return Failure(LogChannelMissing);
    }
    if logMessage.None? {
      return Failure(LogMessageMissing);
    }
    if logMessage.value.None? {
      return Failure(JoinWithoutEmbed);
    }
    var fields := logMessage.value.value;
    var staffList := CollectStaff(fields, userId);
    r := Success(ReplaceOfficers(fields, OfficersValue(staffList)));
  }

  /** Without an officers field, a join changes no field. */
  lemma JoinWithoutOfficersField(fields: seq<EmbedField>, userId: string)
    requires Find(fields, OfficersName).None?
    ensures JoinedFields(fields, userId) == fields
  {
  }

  /**
   * After a join the officers value is never the placeholder, and splitting
   * it gives back the previous officers in order with the joiner at the end.
   */
  lemma JoinedValueLists(fields: seq<EmbedField>, userId: string)
    requires '\n' !in userId
    ensures var staff := JoinedStaff(StaffList(fields), Mention(userId));
      && OfficersValue(staff) != NoOfficers
      && Strings.Split(OfficersValue(staff), '\n') == staff
  {
    var staff := JoinedStaff(StaffList(fields), Mention(userId));
    assert NoOfficers !in staff;
    Strings.SplitJoin(staff, '\n');
    PlaceholderIsOneLine();
    assert staff != [NoOfficers];
  }

  lemma PlaceholderIsOneLine()
    ensures Strings.Split(NoOfficers, '\n') == [NoOfficers]
  {
    assert forall i :: 0 <= i < |NoOfficers| ==> NoOfficers[i] != '\n';
    Strings.SplitNoSeparator(NoOfficers, '\n');
  }

  /** The first officers field after the rebuild carries the new value. */
  lemma {:induction false} FindReplaced(fields: seq<EmbedField>, value: string)
    ensures Find(ReplaceOfficers(fields, value), OfficersName)
      == if Find(fields, OfficersName).Some? then Some(EmbedField(OfficersName, value, true)) else None
  {
    if fields != [] && fields[0].name != OfficersName {
      FindReplaced(fields[1..], value);
      assert ReplaceOfficers(fields, value)[1..] == ReplaceOfficers(fields[1..], value);
    }
  }

  /** Joining twice is the same as joining once. */
  lemma JoinIdempotent(fields: seq<EmbedField>, userId: string)
    requires '\n' !in userId
    ensures JoinedFields(JoinedFields(fields, userId), userId) == JoinedFields(fields, userId)
  {
    var m := Mention(userId);
    var staff := JoinedStaff(StaffList(fields), m);
    var value := OfficersValue(staff);
    var once := ReplaceOfficers(fields, value);
    if Find(fields, OfficersName).Some? {
      FindReplaced(fields, value);
      JoinedValueLists(fields, userId);
      assert StaffList(once) == staff;
      assert JoinedStaff(StaffList(once), m) == staff;
    } else {
      assert once == fields;
    }
  }

  // ------------------------------------------------------------------- close

  function CountNamed(fields: seq<EmbedField>, name: string): (n: nat)
    ensures n <= |fields|
  {
    if fields == [] then 0 else (if fields[0].name == name then 1 else 0) + CountNamed(fields[1..], name)
  }

  /** `fields.filter(field => field.name !== 'Officers in ticket')`. */
  function RemoveOfficers(fields: seq<EmbedField>): (r: seq<EmbedField>)
    ensures forall i :: 0 <= i < |r| ==> r[i].name != OfficersName
    ensures forall f :: f in fields && f.name != OfficersName ==> f in r
    ensures forall f :: f in r ==> f in fields
    ensures |r| == |fields| - CountNamed(fields, OfficersName)
  {
    if fields == [] then []
    else
      var rest := RemoveOfficers(fields[1..]);
      assert forall f :: f in fields && f != fields[0] ==> f in fields[1..];
      if fields[0].name == OfficersName then rest else [fields[0]] + rest
  }

  /** The filter keeps its order: it distributes over concatenation. */
  lemma {:induction false} RemoveOfficersAppend(a: seq<EmbedField>, b: seq<EmbedField>)
    ensures RemoveOfficers(a + b) == RemoveOfficers(a) + RemoveOfficers(b)
  {
    if a != [] {
      assert (a + b)[1..] == a[1..] + b;
      RemoveOfficersAppend(a[1..], b);
    } else {
      assert a + b == b;
    }
  }

  /** `reason || 'No reason provided'`. */
  function ReasonText(reason: string): (text: string)
    ensures text != ""
    ensures reason != "" ==> text == reason
  {
    if reason == "" then "No reason provided" else reason
  }

  /** The fields of the closed log: the original ones without officers, then "Closed by", then "Reason". */
  function ClosedFields(fields: seq<EmbedField>, closerId: string, reason: string): (r: seq<EmbedField>)
    ensures |r| == |fields| - CountNamed(fields, OfficersName) + 2
    ensures r[..|r| - 2] == RemoveOfficers(fields)
    ensures r[|r| - 2] == EmbedField("Closed by", Mention(closerId), true)
    ensures r[|r| - 1] == EmbedField("Reason", ReasonText(reason), false)
  {
    RemoveOfficers(fields) + [EmbedField("Closed by", Mention(closerId), true)] + [EmbedField("Reason", ReasonText(reason), false)]
  }

  /** The ticket type: the first "Type" field's value, or "Unknown Type". */
  function TicketType(fields: seq<EmbedField>): string
  {
    match Find(fields, "Type")
    case Some(f) => f.value
    case None => "Unknown Type"
  }

  /** The creator: the first "Created by" field's value, or "Unknown User". */
  function Creator(fields: seq<EmbedField>): string
  {
    match Find(fields, "Created by")
    case Some(f) => f.value
    case None => "Unknown User"
  }

  /** The lookups fall back to their defaults exactly when no field has the name. */
  lemma LookupDefaults(fields: seq<EmbedField>)
    ensures (forall i :: 0 <= i < |fields| ==> fields[i].name != "Type") ==> TicketType(fields) == "Unknown Type"
    ensures (exists i :: 0 <= i < |fields| && fields[i].name == "Type") ==>
      exists i :: 0 <= i < |fields| && fields[i].name == "Type" && TicketType(fields) == fields[i].value
        && (forall j :: 0 <= j < i ==> fields[j].name != "Type")
    ensures (forall i :: 0 <= i < |fields| ==> fields[i].name != "Created by") ==> Creator(fields) == "Unknown User"
    ensures (exists i :: 0 <= i < |fields| && fields[i].name == "Created by") ==>
      exists i :: 0 <= i < |fields| && fields[i].name == "Created by" && Creator(fields) == fields[i].value
        && (forall j :: 0 <= j < i ==> fields[j].name != "Created by")
  {
  }

  /** The message content written on close: only a Recruitment ticket gets one. */
  function CloseContent(fields: seq<EmbedField>, nowMs: nat): (content: Option<string>)
    ensures content.Some? <==> TicketType(fields) == "Recruitment"
    ensures content.Some? ==> Strings.StartsWith(content.value, "Created by: " + Creator(fields) + " <t:")
  {
    if TicketType(fields) == "Recruitment" then
      var head := "Created by: " + Creator(fields) + " <t:";
      var content := head + Strings.NatToString(nowMs / 1000) + ":R>";
      assert content[..|head|] == head;
      Some(content)
    else None
  }

  datatype ClosedLog = ClosedLog(title: string, color: nat, fields: seq<EmbedField>, content: Option<string>, transcriptUrl: string)

  datatype CloseError = LogMessageNotFound | NoPermission | CloseWithoutEmbed | HandlerThrows

  /**
   * The close handler with the role check it evidently intends (the list
   * split on commas, as the button handler reads it). Its inputs are the
   * fetched log message (`None` when not found, `Some(None)` without an
   * embed), the closer, the modal's reason, the clock and the thread.
   */
  function Close(env: Option<string>, memberRoles: set<string>, logMessage: Option<Option<seq<EmbedField>>>,
                 closerId: string, reason: string, nowMs: nat, guildId: string, threadId: string): (r: Result<ClosedLog, CloseError>)
    ensures logMessage.None? ==> r == Failure(LogMessageNotFound)
    ensures logMessage.Some? && !Buttons.HasPermission(Buttons.RequiredRoles(env), memberRoles) ==> r == Failure(NoPermission)
    ensures r.Success? <==> logMessage.Some? && logMessage.value.Some? && Buttons.HasPermission(Buttons.RequiredRoles(env), memberRoles)
    ensures r.Success? ==>
      && r.value.title == "Ticket Closed"
      && r.value.fields == ClosedFields(logMessage.value.value, closerId, reason)
      && r.value.content == CloseContent(logMessage.value.value, nowMs)
  {
    if logMessage.None? then Failure(LogMessageNotFound)
    else if !Buttons.HasPermission(Buttons.RequiredRoles(env), memberRoles) then Failure(NoPermission)
    else if logMessage.value.None? then Failure(CloseWithoutEmbed)
    else
      var fields := logMessage.value.value;
      Success(ClosedLog("Ticket Closed", 0x7e7e7e, ClosedFields(fields, closerId, reason), CloseContent(fields, nowMs),
                        "https://discord.com/channels/" + guildId + "/" + threadId))
  }

  /**
   * The close handler as written: it calls `some` on the raw environment
   * value, a string or `undefined`, neither of which has that method, so the
   * call throws before the log message is read and nothing is edited.
   */
  function CloseAsWritten(env: Option<string>, memberRoles: set<string>, logMessage: Option<Option<seq<EmbedField>>>,
                          closerId: string, reason: string, nowMs: nat, guildId: string, threadId: string): (r: Result<ClosedLog, CloseError>)
    ensures r == Failure(HandlerThrows)
  {
    Failure(HandlerThrows)
  }

  /** A permitted close that the corrected handler performs and the handler as written never does. */
  lemma CloseAsWrittenNeverCloses()
    ensures Close(Some("42"), {"42"}, Some(Some([])), "7", "", 0, "1", "2").Success?
    ensures CloseAsWritten(Some("42"), {"42"}, Some(Some([])), "7", "", 0, "1", "2").Failure?
  {
    Strings.SplitNoSeparator("42", ',');
  }
}
