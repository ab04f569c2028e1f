/**
 Start-up of the relay: the credential check that runs before anything
 touches the network, the connection attempt, and the three non-fatal
 configuration warnings printed once connected.

 Whether `client.start` succeeds is decided by the Telegram library and the
 operator, so it is a parameter here.
 */
module Startup {
  import opened Optional
  import opened Relay
  import Handles

  /** Non-fatal configuration problems, in the order they are reported. */
  datatype Warning = DestinationUnset | GroupUnset | HandlesEmpty

  /** The calls start-up makes on the Telegram client. */
  datatype ClientCall = Connect | GetMe | RunUntilDisconnected

  datatype Verdict =
    | MissingCredentials
    | ConnectFailed
    | Running(warnings: seq<Warning>)

  /** The client calls made, in order, and how start-up ended. */
  datatype Outcome = Outcome(calls: seq<ClientCall>, verdict: Verdict)

  /** `api_id`, `api_hash` and `phone` are all truthy. */
  predicate CredentialsPresent(cfg: Config) {
    cfg.apiId != 0 && cfg.apiHash != "" && cfg.phone != ""
  }

  function Rank(w: Warning): nat {
    match w
    case DestinationUnset => 0
    case GroupUnset => 1
    case HandlesEmpty => 2
  }

  /** The warnings a configuration earns, destination first, then group,
      then handles. */
  function Warnings(cfg: Config): (ws: seq<Warning>)
    ensures DestinationUnset in ws <==> cfg.meId == 0
    ensures GroupUnset in ws <==> cfg.targetGroupId == 0
    ensures HandlesEmpty in ws <==> cfg.TargetUserHandles() == []
    ensures forall i, j :: 0 <= i < j < |ws| ==> Rank(ws[i]) < Rank(ws[j])
  {
    (if cfg.meId == 0 then [DestinationUnset] else [])
    + (if cfg.targetGroupId == 0 then [GroupUnset] else [])
    + (if cfg.TargetUserHandles() == [] then [HandlesEmpty] else [])
  }

  /** Start-up, given whether the library's connection attempt succeeds. */
  function Start(cfg: Config, connects: bool): (o: Outcome)
    ensures Connect in o.calls <==> CredentialsPresent(cfg)
    ensures o.verdict == MissingCredentials <==> !CredentialsPresent(cfg)
    ensures o.verdict == ConnectFailed <==> CredentialsPresent(cfg) && !connects
    ensures o.verdict.Running? <==> CredentialsPresent(cfg) && connects
    ensures RunUntilDisconnected in o.calls <==> o.verdict.Running?
    ensures GetMe in o.calls <==> o.verdict.Running?
    ensures o.verdict == ConnectFailed ==> o.calls == [Connect]
    ensures o.verdict.Running? ==> o.verdict.warnings == Warnings(cfg)
    ensures |o.calls| > 0 ==> o.calls[0] == Connect
  {
    if cfg.apiId == 0 || cfg.apiHash == "" || cfg.phone == "" then
      Outcome([], MissingCredentials)
    else if !connects then
      Outcome([Connect], ConnectFailed)
    else
      Outcome([Connect, GetMe, RunUntilDisconnected], Running(Warnings(cfg)))
  }

  /** The handles warning appears exactly when the configured text holds
      nothing but commas and white space. */
  lemma HandlesWarningIff(cfg: Config)
    ensures HandlesEmpty in Warnings(cfg) ==> Handles.OnlyCommasAndSpace(cfg.handlesText)
    ensures Handles.OnlyCommasAndSpace(cfg.handlesText) ==> HandlesEmpty in Warnings(cfg)
  {
    Handles.ParseEmptyIff(cfg.handlesText);
  }

  /** An event the callback would forward under `cfg`, when `cfg` is fully
      configured. */
  function Witness(cfg: Config): Event
    requires cfg.TargetUserHandles() != []
  {
    Event(Some("x"), cfg.targetGroupId, Some(Sender(0, Some(cfg.TargetUserHandles()[0]))))
  }

  /** The warnings are exactly right: start-up warns about nothing precisely
      when some message would be forwarded. */
  lemma NoWarningsIffSomeForward(cfg: Config)
    ensures Warnings(cfg) == [] ==> exists ev :: Decide(cfg, ev).Send?
    ensures (exists ev :: Decide(cfg, ev).Send?) ==> Warnings(cfg) == []
  {
    if Warnings(cfg) == [] {
      Handles.ParseWellFormed(cfg.handlesText);
      var ev := Witness(cfg);
      assert Matched(cfg, ev);
      assert Decide(cfg, ev).Send?;
    }
  }
}
