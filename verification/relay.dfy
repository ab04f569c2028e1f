/**
 The per-message callback of the relay: which incoming messages are copied to
 the destination chat, and what the copy says.

 The callback's `await event.get_sender()` is modelled as an already-resolved
 optional sender, and Python truthiness is written out: empty text, a zero
 chat id and an empty username all count as false.
 */
module Relay {
  import opened Optional
  import Handles

  /** The settings read once at start-up. Ids left unset are 0; the handle
      list is kept as the configured comma-separated text. */
  datatype Config = Config(
    apiId: int,
    apiHash: string,
    phone: string,
    targetGroupId: int,
    handlesText: string,
    meId: int)
  {
    /** The allow-list, parsed from the configured text. */
    function TargetUserHandles(): seq<string> {
      Handles.Parse(handlesText)
    }
  }

  datatype Sender = Sender(id: int, username: Option<string>)

  datatype Event = Event(text: Option<string>, chatId: int, sender: Option<Sender>)

  /** What the callback does with one message. */
  datatype Decision =
    | Skip
    | WarnNoDestination
    | Send(dest: int, body: string)

  // ---------------------------------------------------------------------
  // The forwarded message

  const Opening: string := "**New message from @"
  const Closing: string := " in group:**\n"

  /** The bold first line naming the sender, newline included. */
  function AttributionLine(username: string): (line: string)
    ensures |line| == |username| + 33
  {
    Opening + username + Closing
  }

  /** The forwarded copy: the attribution line followed by the original text,
      unchanged. */
  function ForwardBody(username: string, text: string): (body: string)
    ensures |body| == |AttributionLine(username)| + |text|
    ensures body[..|AttributionLine(username)|] == AttributionLine(username)
    ensures body[|AttributionLine(username)|..] == text
  {
    AttributionLine(username) + text
  }

  /** Reads the original text back out of a forwarded copy attributed to
      `username`; `None` when `body` does not start with that attribution. */
  function RecoverText(body: string, username: string): Option<string>
  {
    var line := AttributionLine(username);
    if |line| <= |body| && body[..|line|] == line then Some(body[|line|..]) else None
  }

  /** Removing the attribution recovers the original text exactly. */
  lemma RecoverForward(username: string, text: string)
    ensures RecoverText(ForwardBody(username, text), username) == Some(text)
  {
    var line := AttributionLine(username);
    assert (line + text)[..|line|] == line;
  }

  /** Conversely, whatever `RecoverText` accepts is a forwarded copy of what
      it returns. */
  lemma RecoverSound(body: string, username: string, text: string)
    requires RecoverText(body, username) == Some(text)
    ensures ForwardBody(username, text) == body
  {
    var line := AttributionLine(username);
    assert body == body[..|line|] + body[|line|..];
  }

  /** Index of the first line break in `s`, or `|s|` when there is none. */
  function FirstLineBreak(s: string): (i: nat)
    ensures i <= |s|
    ensures '\n' !in s[..i]
    ensures i < |s| ==> s[i] == '\n'
  {
    if |s| == 0 then 0
    else if s[0] == '\n' then 0
    else
      var j := FirstLineBreak(s[1..]);
      assert s[..j + 1] == [s[0]] + s[1..][..j];
      j + 1
  }

  lemma FirstLineBreakAt(s: string, i: nat)
    requires i < |s| && s[i] == '\n' && '\n' !in s[..i]
    ensures FirstLineBreak(s) == i
  {
  }

  /** When the username has no line break, the first line break of a
      forwarded copy is the one that closes the attribution line. */
  lemma AttributionEndsAtFirstLineBreak(username: string, text: string)
    requires '\n' !in username
    ensures FirstLineBreak(ForwardBody(username, text)) == |AttributionLine(username)| - 1
  {
    var b := ForwardBody(username, text);
    var i := |AttributionLine(username)| - 1;
    assert b[..i] == Opening + username + Closing[..|Closing| - 1];
    assert b[i] == '\n';
    FirstLineBreakAt(b, i);
  }

  /** For usernames without a line break (Telegram's never have one), a
      forwarded copy determines both the sender and the text. */
  lemma ForwardBodyInjective(u1: string, t1: string, u2: string, t2: string)
    requires '\n' !in u1 && '\n' !in u2
    requires ForwardBody(u1, t1) == ForwardBody(u2, t2)
    ensures u1 == u2 && t1 == t2
  {
    var b := ForwardBody(u1, t1);
    AttributionEndsAtFirstLineBreak(u1, t1);
    AttributionEndsAtFirstLineBreak(u2, t2);
    assert u1 == b[|Opening|..|Opening| + |u1|];
    assert u2 == b[|Opening|..|Opening| + |u2|];
  }

  // ---------------------------------------------------------------------
  // The two filters, as independent predicates

  predicate HasText(ev: Event) {
    ev.text.Some? && ev.text.value != ""
  }

  /** Filter one: non-empty text in a non-zero chat that is the target group. */
  predicate FromTargetGroup(cfg: Config, ev: Event) {
    HasText(ev) && ev.chatId != 0 && ev.chatId == cfg.targetGroupId
  }

  /** The sender's username, when it is present and non-empty. */
  function Handle(ev: Event): Option<string> {
    if ev.sender.Some? && ev.sender.value.username.Some? && ev.sender.value.username.value != ""
    then ev.sender.value.username
    else None
  }

  /** Filter two: the sender has a username that is exactly an allow-list entry. */
  predicate FromListedSender(cfg: Config, ev: Event) {
    Handle(ev).Some? && Handle(ev).value in cfg.TargetUserHandles()
  }

  predicate Matched(cfg: Config, ev: Event) {
    FromTargetGroup(cfg, ev) && FromListedSender(cfg, ev)
  }

  // ---------------------------------------------------------------------
  // The callback

  /** What the callback decides for one event, following its nested tests. */
  function Decide(cfg: Config, ev: Event): (d: Decision)
    ensures d.Send? <==> Matched(cfg, ev) && cfg.meId != 0
    ensures d.WarnNoDestination? <==> Matched(cfg, ev) && cfg.meId == 0
    ensures d.Skip? <==> !Matched(cfg, ev)
    ensures d.Send? ==> d.dest == cfg.meId && RecoverText(d.body, Handle(ev).value) == ev.text
    ensures cfg.targetGroupId == 0 ==> d == Skip
    ensures cfg.TargetUserHandles() == [] ==> d == Skip
  {
    if ev.text.Some? && ev.text.value != "" && ev.chatId != 0 then
      if ev.chatId == cfg.targetGroupId then
        match ev.sender
        case None => Skip
        case Some(sender) =>
          match sender.username
          case None => Skip
          case Some(username) =>
            if username != "" && username in cfg.TargetUserHandles() then
              var body := ForwardBody(username, ev.text.value);
              RecoverForward(username, ev.text.value);
              if cfg.meId != 0 then Send(cfg.meId, body) else WarnNoDestination
            else
              Skip
      else
        Skip
    else
      Skip
  }

  /** A matched message with a destination set is forwarded to that
      destination as the attribution line followed by the original text. */
  lemma MatchedIsForwarded(cfg: Config, ev: Event)
    requires Matched(cfg, ev) && cfg.meId != 0
    ensures Decide(cfg, ev) == Send(cfg.meId, ForwardBody(Handle(ev).value, ev.text.value))
  {
    RecoverSound(Decide(cfg, ev).body, Handle(ev).value, ev.text.value);
  }

  // ---------------------------------------------------------------------
  // The callback over the life of the process

  /** A message actually sent to the destination chat. */
  datatype Outgoing = Outgoing(dest: int, body: string)

  /** Number of events both filters let through. */
  function MatchCount(cfg: Config, events: seq<Event>): nat {
    if |events| == 0 then 0
    else (if Matched(cfg, events[0]) then 1 else 0) + MatchCount(cfg, events[1..])
  }

  /** The messages sent while the callback runs once per event, in order.
      Nothing is remembered between events, so nothing is deduplicated. */
  function Deliveries(cfg: Config, events: seq<Event>): (out: seq<Outgoing>)
    ensures |out| == (if cfg.meId != 0 then MatchCount(cfg, events) else 0)
    ensures forall k :: 0 <= k < |out| ==> out[k].dest == cfg.meId != 0
    ensures cfg.targetGroupId == 0 ==> out == []
  {
    if |events| == 0 then []
    else
      var here := match Decide(cfg, events[0])
        case Send(dest, body) => [Outgoing(dest, body)]
        case _ => [];
      here + Deliveries(cfg, events[1..])
  }

  /** Events are handled independently: the deliveries for two runs of events
      back to back are those of the first run followed by those of the second. */
  lemma {:induction false} DeliveriesAppend(cfg: Config, a: seq<Event>, b: seq<Event>)
    ensures Deliveries(cfg, a + b) == Deliveries(cfg, a) + Deliveries(cfg, b)
    decreases |a|
  {
    if |a| == 0 {
      assert a + b == b;
    } else {
      assert (a + b)[0] == a[0];
      assert (a + b)[1..] == a[1..] + b;
      DeliveriesAppend(cfg, a[1..], b);
    }
  }

  /** The same matched message delivered twice is forwarded twice. */
  lemma NoDeduplication(cfg: Config, ev: Event)
    requires Matched(cfg, ev) && cfg.meId != 0
    ensures var o := Outgoing(cfg.meId, ForwardBody(Handle(ev).value, ev.text.value));
            Deliveries(cfg, [ev, ev]) == [o, o]
  {
    MatchedIsForwarded(cfg, ev);
    assert [ev, ev][1..] == [ev];
    assert [ev][1..] == [];
  }
}
