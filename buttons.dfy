/**
 * The button and modal dispatcher: the role permission predicate, the
 * routing of a button's custom id and the close-modal id format.
 */
module Buttons {
  import opened Wrappers
  import Strings

  /** `process.env.requiredRoles ? process.env.requiredRoles.split(',') : []`. */
  function RequiredRoles(env: Option<string>): (roles: seq<string>)
    ensures env.None? || env == Some("") ==> roles == []
    ensures env.Some? && env.value != "" ==> Strings.Join(roles, ',') == env.value
    ensures forall i :: 0 <= i < |roles| ==> ',' !in roles[i]
  {
    if env.Some? && env.value != "" then
      Strings.JoinSplit(env.value, ',');
      Strings.Split(env.value, ',')
    else []
  }

  /** `requiredRoles.some(roleId => memberRoles.has(roleId))`. */
  function AnyHeld(required: seq<string>, memberRoles: set<string>): (b: bool)
    ensures b <==> exists i :: 0 <= i < |required| && required[i] in memberRoles
  {
    if required == [] then false
    else required[0] in memberRoles || AnyHeld(required[1..], memberRoles)
  }

  /** Permission holds when no role is required or the member holds a listed role. */
  function HasPermission(required: seq<string>, memberRoles: set<string>): (b: bool)
    ensures b <==> |required| == 0 || exists i :: 0 <= i < |required| && required[i] in memberRoles
  {
    |required| == 0 || AnyHeld(required, memberRoles)
  }

  /** With the variable unset or empty, everyone may use the ticket buttons. */
  lemma UnsetRolesPermitAll(env: Option<string>, memberRoles: set<string>)
    requires env.None? || env == Some("")
    ensures HasPermission(RequiredRoles(env), memberRoles)
  {
  }

  /**
   * With the variable set to a comma-separated list of role ids, a member is
   * permitted exactly when holding one of them (or when the list is empty).
   */
  lemma ConfiguredRoles(roles: seq<string>, memberRoles: set<string>)
    requires |roles| >= 1
    requires forall i :: 0 <= i < |roles| ==> ',' !in roles[i]
    ensures HasPermission(RequiredRoles(Some(Strings.Join(roles, ','))), memberRoles)
      <==> Strings.Join(roles, ',') == "" || exists i :: 0 <= i < |roles| && roles[i] in memberRoles
  {
    Strings.SplitJoin(roles, ',');
  }

  /** What a button press leads to. */
  datatype ButtonAction =
    | Join(identifier: Option<string>)
    | ShowCloseModal(modalId: string)
    | Denied
    | AllyVerification
    | Recruitment
    | Nothing

  /** `ticket_close_modal_${identifier}`; an absent part prints as "undefined". */
  function ModalId(identifier: Option<string>): (m: string)
    ensures Strings.StartsWith(m, "ticket_close_modal_")
  {
    "ticket_close_modal_" + identifier.GetOr("undefined")
  }

  /**
   * `const [prefix, action, identifier] = customId.split('_')`, the ticket
   * switch guarded by the permission, then the switch on the exact id.
   */
  function Route(customId: string, permitted: bool): (a: ButtonAction)
    ensures a.Join? || a.ShowCloseModal? ==> permitted
    ensures a.Denied? ==> !permitted
    ensures a.ShowCloseModal? ==> Strings.StartsWith(a.modalId, "ticket_close_modal_")
  {
    var parts := Strings.Split(customId, '_');
    var action := if |parts| > 1 then Some(parts[1]) else None;
    var identifier := if |parts| > 2 then Some(parts[2]) else None;
    if parts[0] == "ticket" && action == Some("join") then
      if permitted then Join(identifier) else Denied
    else if parts[0] == "ticket" && action == Some("close") then
      if permitted then ShowCloseModal(ModalId(identifier)) else Denied
    else if customId == "start_ally_verification" then AllyVerification
    else if customId == "start_recruitment" then Recruitment
    else Nothing
  }

  /** A join button dispatches a join for its identifier, and only with permission. */
  lemma RouteJoin(identifier: string, permitted: bool)
    requires '_' !in identifier
    ensures Route("ticket_join_" + identifier, permitted) == if permitted then Join(Some(identifier)) else Denied
  {
    TicketParts("join", identifier);
    assert "ticket_join_" + identifier == "ticket_" + "join" + "_" + identifier;
  }

  /** A close button opens the modal that carries its identifier, and only with permission. */
  lemma RouteClose(identifier: string, permitted: bool)
    requires '_' !in identifier
    ensures Route("ticket_close_" + identifier, permitted)
      == if permitted then ShowCloseModal("ticket_close_modal_" + identifier) else Denied
  {
    TicketParts("close", identifier);
    assert "ticket_close_" + identifier == "ticket_" + "close" + "_" + identifier;
  }

  lemma TicketParts(action: string, identifier: string)
    requires '_' !in action && '_' !in identifier
    ensures Strings.Split("ticket_" + action + "_" + identifier, '_') == ["ticket", action, identifier]
  {
    assert "ticket_" + action + "_" + identifier == "ticket" + ['_'] + (action + ['_'] + identifier);
    Strings.SplitAfter("ticket", action + ['_'] + identifier, '_');
    Strings.SplitAfter(action, identifier, '_');
    Strings.SplitNoSeparator(identifier, '_');
  }

  /** Another ticket action is logged and falls through to the exact-id switch, where it matches nothing. */
  lemma RouteOtherTicketAction(action: string, rest: string, permitted: bool)
    requires '_' !in action && action != "join" && action != "close"
    requires rest == "" || rest[0] == '_'
    ensures Route("ticket_" + action + rest, permitted) == Nothing
  {
    var customId := "ticket_" + action + rest;
    assert customId == "ticket" + ['_'] + (action + rest);
    Strings.SplitAfter("ticket", action + rest, '_');
    Strings.SplitPrefix(action, rest, '_');
    assert customId[0] == 't';
  }

  /** Only the exact ids start the verification and recruitment flows. */
  lemma ExactIdsOnly(customId: string, permitted: bool)
    ensures Route(customId, permitted) == AllyVerification <==> customId == "start_ally_verification"
    ensures Route(customId, permitted) == Recruitment <==> customId == "start_recruitment"
  {
    if customId == "start_ally_verification" || customId == "start_recruitment" {
      Strings.SplitAfter("start", customId[6..], '_');
      assert customId == "start" + ['_'] + customId[6..];
    }
  }

  /** `customId.startsWith('ticket_close_modal_')` then `customId.split('_')[3]`. */
  function ParseModal(customId: string): (r: Option<string>)
    ensures r.Some? <==> Strings.StartsWith(customId, "ticket_close_modal_")
  {
    if Strings.StartsWith(customId, "ticket_close_modal_") then
      ModalParts(customId[19..]);
      assert customId == "ticket_close_modal_" + customId[19..];
      Some(Strings.Split(customId, '_')[3])
    else None
  }

  lemma ModalParts(rest: string)
    ensures Strings.Split("ticket_close_modal_" + rest, '_') == ["ticket", "close", "modal"] + Strings.Split(rest, '_')
  {
    assert "ticket_close_modal_" + rest == "ticket" + ['_'] + ("close" + ['_'] + ("modal" + ['_'] + rest));
    Strings.SplitAfter("ticket", "close" + ['_'] + ("modal" + ['_'] + rest), '_');
    Strings.SplitAfter("close", "modal" + ['_'] + rest, '_');
    Strings.SplitAfter("modal", rest, '_');
  }

  /** The modal id gives back the identifier of the close button whenever it holds no `_`. */
  lemma ModalRoundTrip(identifier: string)
    requires '_' !in identifier
    ensures ParseModal(ModalId(Some(identifier))) == Some(identifier)
  {
    ModalParts(identifier);
    Strings.SplitNoSeparator(identifier, '_');
  }

  /** An identifier holding `_` comes back cut at its first `_`. */
  lemma ModalTruncates(head: string, tail: string)
    requires '_' !in head
    ensures ParseModal(ModalId(Some(head + "_" + tail))) == Some(head)
  {
    ModalParts(head + "_" + tail);
    Strings.SplitAfter(head, tail, '_');
  }
}
