/** The state machine of backend.py's `Backend`, as pure functions over its five fields.
    Each operation yields the new fields, the requests it issues (the synchronous GET it waits on
    and the stop requests it hands to a thread, in the order backend.py issues them) and the
    message box it shows. The class in backend.dfy is proved to follow these functions. */
module Session {
  import opened Protocol
  import Text

  /** The fields `connected`, `current_ip`, `current_port`, `slam_active`, `loc_active`. */
  datatype State = State(connected: bool, ip: string, port: int, slamActive: bool, locActive: bool)

  /** The effect of one operation. */
  datatype Step = Step(next: State, sent: seq<Request>, box: MessageBox)

  /** The fields after `__init__`, and after every `set_disconnected`. */
  const Initial: State := State(false, "", DefaultPort, false, false)

  /** The fields after `set_connected(ip, port)`. */
  function Connected(ip: string, port: int): State {
    State(true, ip, port, false, false)
  }

  /** `connect_to_server`: GET star_car at the given address; commit only when the reply passes the connect test. */
  function ConnectToServer(s: State, ip: string, port: int, reply: Reply): Step {
    var sent := [Request(ip, port, StarCar)];
    if reply.Failure? then Step(s, sent, CriticalBox)
    else if ConnectAccepted(reply) then Step(Connected(ip, port), sent, InformationBox)
    else Step(s, sent, WarningBox)
  }

  /** `disconnect_from_server`: hand star_car_stop for the held address to a thread, then reset. */
  function DisconnectFromServer(s: State): Step {
    Step(Initial, [Request(s.ip, s.port, StarCarStop)], NoBox)
  }

  /** `handle_connection`: the connect button's toggle. `reply` is only read on the connect path. */
  function HandleConnection(s: State, ip: string, port: int, reply: Reply): Step {
    if !s.connected then ConnectToServer(s, ip, port, reply) else DisconnectFromServer(s)
  }

  /** `start_slam`: start SLAM when its flag is off, otherwise clear the flag and send its stop. */
  function StartSlam(s: State, reply: Reply): Step {
    if !s.slamActive then
      var sent := [Request(s.ip, s.port, SlamYdlidar)];
      if reply.Failure? then Step(s, sent, CriticalBox)
      else if HasStatus(reply, StartedStatus) then Step(s.(slamActive := true), sent, InformationBox)
      else Step(s, sent, NoBox)
    else
      Step(s.(slamActive := false), [Request(s.ip, s.port, SlamYdlidarStop)], NoBox)
  }

  /** `store_map`: one GET; only the message box depends on the reply. */
  function StoreMap(s: State, reply: Reply): Step {
    var sent := [Request(s.ip, s.port, StoreMapScript)];
    if reply.Failure? then Step(s, sent, CriticalBox)
    else if HasStatus(reply, StartedStatus) then Step(s, sent, InformationBox)
    else Step(s, sent, WarningBox)
  }

  /** `localization`: the SLAM toggle's twin on `loc_active`. */
  function Localization(s: State, reply: Reply): Step {
    if !s.locActive then
      var sent := [Request(s.ip, s.port, LocalizationYdlidar)];
      if reply.Failure? then Step(s, sent, CriticalBox)
      else if HasStatus(reply, StartedStatus) then Step(s.(locActive := true), sent, InformationBox)
      else Step(s, sent, NoBox)
    else
      Step(s.(locActive := false), [Request(s.ip, s.port, LocalizationYdlidarStop)], NoBox)
  }

  // ---------------------------------------------------------------------------------------------
  // Connecting and disconnecting

  /** A reply is accepted exactly when its status is the started status or its message (absent
      counts as empty) contains "already active"; a failed request is never accepted. */
  lemma ConnectAcceptedIff(status: Option<string>, msg: string)
    ensures ConnectAccepted(Response(status, Some(msg))) <==>
              status == Some(StartedStatus) || Text.Contains(msg, AlreadyActivePhrase)
    ensures ConnectAccepted(Response(status, None)) <==> status == Some(StartedStatus)
    ensures !ConnectAccepted(Failure)
  {
    assert MessageOrEmpty(Response(status, Some(msg))) == msg;
  }

  /** An accepted connect stores the given address, clears both capability flags and shows the
      information box, whatever the state before; the one request is star_car to the given address. */
  lemma ConnectAcceptedCommits(s: State, ip: string, port: int, reply: Reply)
    requires ConnectAccepted(reply)
    ensures ConnectToServer(s, ip, port, reply) == Step(Connected(ip, port), [Request(ip, port, StarCar)], InformationBox)
  {
  }

  /** A reply saying the script is already active, with any status, commits the same session as a
      fresh start. */
  lemma AlreadyActiveLikeStarted(s: State, ip: string, port: int, status: Option<string>, msg: string)
    requires Text.Contains(msg, AlreadyActivePhrase)
    ensures ConnectToServer(s, ip, port, Response(status, Some(msg)))
         == ConnectToServer(s, ip, port, Response(Some(StartedStatus), None))
  {
    ConnectAcceptedIff(status, msg);
    ConnectAcceptedCommits(s, ip, port, Response(status, Some(msg)));
    ConnectAcceptedCommits(s, ip, port, Response(Some(StartedStatus), None));
  }

  /** A reply that fails the connect test, or a failed request, leaves all five fields as they were;
      the star_car request was still issued to the given address. */
  lemma ConnectRejectedChangesNothing(s: State, ip: string, port: int, reply: Reply)
    requires !ConnectAccepted(reply)
    ensures ConnectToServer(s, ip, port, reply).next == s
    ensures ConnectToServer(s, ip, port, reply).sent == [Request(ip, port, StarCar)]
  {
  }

  /** Disconnect ends in the initial fields whatever the state before, and issues exactly one
      request: star_car_stop to the address held before the reset. Even with SLAM or localization
      active, no stop is sent for them. */
  lemma DisconnectResets(s: State)
    ensures DisconnectFromServer(s).next == Initial
    ensures |DisconnectFromServer(s).sent| == 1
    ensures DisconnectFromServer(s).sent[0] == Request(s.ip, s.port, StarCarStop)
  {
  }

  /** The connect button connects exactly when it was disconnected and the reply is accepted;
      when connected it always disconnects, whatever the reply. */
  lemma HandleConnectionToggles(s: State, ip: string, port: int, reply: Reply)
    ensures HandleConnection(s, ip, port, reply).next.connected <==> !s.connected && ConnectAccepted(reply)
    ensures !s.connected ==> HandleConnection(s, ip, port, reply).sent == [Request(ip, port, StarCar)]
    ensures s.connected ==> HandleConnection(s, ip, port, reply) == DisconnectFromServer(s)
  {
  }

  /** Connecting and then pressing the button again (with any address typed) returns to the initial
      fields, and the stop goes to the address that was connected. */
  lemma ConnectThenDisconnect(s: State, ip: string, port: int, r1: Reply, ip2: string, port2: int, r2: Reply)
    requires !s.connected && ConnectAccepted(r1)
    ensures var first := HandleConnection(s, ip, port, r1);
            var second := HandleConnection(first.next, ip2, port2, r2);
            second.next == Initial
            && first.sent + second.sent == [Request(ip, port, StarCar), Request(ip, port, StarCarStop)]
  {
  }

  // ---------------------------------------------------------------------------------------------
  // The SLAM and localization toggles

  /** Starting SLAM sets its flag exactly on the started status; stopping clears it at once and sends
      slam_ydlidar_stop to the current address. Nothing but the SLAM flag ever changes. */
  lemma StartSlamToggles(s: State, reply: Reply)
    ensures var step := StartSlam(s, reply);
            step.next.(slamActive := s.slamActive) == s
            && (!s.slamActive ==>
                  (step.next.slamActive <==> HasStatus(reply, StartedStatus))
                  && step.sent == [Request(s.ip, s.port, SlamYdlidar)])
            && (s.slamActive ==>
                  !step.next.slamActive && step.sent == [Request(s.ip, s.port, SlamYdlidarStop)])
  {
  }

  /** The localization toggle: the same rule on `loc_active`; nothing but that flag changes. */
  lemma LocalizationToggles(s: State, reply: Reply)
    ensures var step := Localization(s, reply);
            step.next.(locActive := s.locActive) == s
            && (!s.locActive ==>
                  (step.next.locActive <==> HasStatus(reply, StartedStatus))
                  && step.sent == [Request(s.ip, s.port, LocalizationYdlidar)])
            && (s.locActive ==>
                  !step.next.locActive && step.sent == [Request(s.ip, s.port, LocalizationYdlidarStop)])
  {
  }

  /** Unlike connect, the SLAM start has no "already active" fallback: the same reply that connects
      the session leaves SLAM off. */
  lemma SlamIgnoresAlreadyActive(s: State, ip: string, port: int, status: Option<string>, msg: string)
    requires !s.slamActive && status != Some(StartedStatus) && Text.Contains(msg, AlreadyActivePhrase)
    ensures ConnectToServer(s, ip, port, Response(status, Some(msg))).next.connected
    ensures !StartSlam(s, Response(status, Some(msg))).next.slamActive
  {
  }

  /** Switching SLAM on and off again restores every field, and the stop goes where the start went. */
  lemma SlamRoundTrip(s: State, r1: Reply, r2: Reply)
    requires !s.slamActive && HasStatus(r1, StartedStatus)
    ensures var on := StartSlam(s, r1);
            var off := StartSlam(on.next, r2);
            off.next == s
            && on.sent + off.sent == [Request(s.ip, s.port, SlamYdlidar), Request(s.ip, s.port, SlamYdlidarStop)]
  {
  }

  /** Switching localization on and off again restores every field. */
  lemma LocalizationRoundTrip(s: State, r1: Reply, r2: Reply)
    requires !s.locActive && HasStatus(r1, StartedStatus)
    ensures var on := Localization(s, r1);
            var off := Localization(on.next, r2);
            off.next == s
            && on.sent + off.sent
               == [Request(s.ip, s.port, LocalizationYdlidar), Request(s.ip, s.port, LocalizationYdlidarStop)]
  {
  }

  /** The two toggles act on separate flags: their order does not matter, so neither excludes the other. */
  lemma TogglesCommute(s: State, r1: Reply, r2: Reply)
    ensures StartSlam(Localization(s, r2).next, r1).next == Localization(StartSlam(s, r1).next, r2).next
  {
  }

  /** SLAM and localization can be active together. */
  lemma BothCapabilitiesCanBeActive(ip: string, port: int)
    ensures var started := Response(Some(StartedStatus), None);
            var slam := StartSlam(Connected(ip, port), started).next;
            var both := Localization(slam, started).next;
            both.slamActive && both.locActive
  {
  }

  /** Storing the map changes no field and issues one store_map request to the current address. */
  lemma StoreMapChangesNoField(s: State, reply: Reply)
    ensures StoreMap(s, reply).next == s
    ensures StoreMap(s, reply).sent == [Request(s.ip, s.port, StoreMapScript)]
  {
  }

  // ---------------------------------------------------------------------------------------------
  // Runs of button presses

  /** A press of one of the backend's buttons, with the reply its request got. */
  datatype Event =
    | ConnectButton(ip: string, port: int, reply: Reply)
    | SlamButton(reply: Reply)
    | StoreMapButton(reply: Reply)
    | LocalizationButton(reply: Reply)

  function Apply(s: State, e: Event): Step {
    match e
    case ConnectButton(ip, port, reply) => HandleConnection(s, ip, port, reply)
    case SlamButton(reply) => StartSlam(s, reply)
    case StoreMapButton(reply) => StoreMap(s, reply)
    case LocalizationButton(reply) => Localization(s, reply)
  }

  /** A fresh `Backend` receiving `events` in order: its final fields and every request it issued. */
  function Run(events: seq<Event>): Step
    decreases |events|
  {
    if events == [] then Step(Initial, [], NoBox)
    else
      var prev := Run(events[..|events| - 1]);
      var step := Apply(prev.next, events[|events| - 1]);
      Step(step.next, prev.sent + step.sent, step.box)
  }

  /** The most recent request for `script` in a log. */
  function LastOf(log: seq<Request>, script: Script): (r: Option<Request>)
    ensures r.Some? ==> r.value in log && r.value.script == script
    ensures r.None? ==> forall k :: 0 <= k < |log| ==> log[k].script != script
  {
    if log == [] then None
    else if log[|log| - 1].script == script then Some(log[|log| - 1])
    else LastOf(log[..|log| - 1], script)
  }

  /** Every `stop` request in the log goes to the address of the latest `start` request before it. */
  ghost predicate StopsFollow(log: seq<Request>, start: Script, stop: Script) {
    forall k :: 0 <= k < |log| && log[k].script == stop ==>
      LastOf(log[..k], start) == Some(Request(log[k].ip, log[k].port, start))
  }

  /** While `flag` is set, the held address is that of the latest `start` request in the log. */
  ghost predicate Holds(r: Step, flag: bool, start: Script) {
    flag ==> LastOf(r.sent, start) == Some(Request(r.next.ip, r.next.port, start))
  }

  ghost predicate RunInvariant(r: Step) {
    Holds(r, r.next.connected, StarCar)
    && Holds(r, r.next.slamActive, SlamYdlidar)
    && Holds(r, r.next.locActive, LocalizationYdlidar)
    && (!r.next.connected ==> r.next.ip == "" && r.next.port == DefaultPort)
    && StopsFollow(r.sent, StarCar, StarCarStop)
    && StopsFollow(r.sent, SlamYdlidar, SlamYdlidarStop)
    && StopsFollow(r.sent, LocalizationYdlidar, LocalizationYdlidarStop)
  }

  lemma StopsFollowAppend(log: seq<Request>, x: Request, start: Script, stop: Script)
    requires StopsFollow(log, start, stop)
    requires x.script == stop ==> LastOf(log, start) == Some(Request(x.ip, x.port, start))
    ensures StopsFollow(log + [x], start, stop)
  {
    var l := log + [x];
    forall k | 0 <= k < |l| && l[k].script == stop
      ensures LastOf(l[..k], start) == Some(Request(l[k].ip, l[k].port, start))
    {
      if k < |log| {
        assert l[..k] == log[..k] && l[k] == log[k];
      } else {
        assert l[..k] == log;
      }
    }
  }

  lemma LastOfAppend(log: seq<Request>, x: Request, script: Script)
    ensures LastOf(log + [x], script) == if x.script == script then Some(x) else LastOf(log, script)
  {
  }

  /** The request one press issues, in terms of the state before it: every stop goes to the held
      address, and only while the flag it clears is set. */
  lemma ApplyRequest(s: State, e: Event)
    ensures |Apply(s, e).sent| == 1
    ensures var x := Apply(s, e).sent[0];
            (x.script == StarCarStop ==> s.connected && x == Request(s.ip, s.port, StarCarStop))
            && (x.script == SlamYdlidarStop ==> s.slamActive && x == Request(s.ip, s.port, SlamYdlidarStop))
            && (x.script == LocalizationYdlidarStop ==> s.locActive && x == Request(s.ip, s.port, LocalizationYdlidarStop))
  {
  }

  /** The state after one press, in terms of the state before it and the request issued: a flag is
      newly set only by its own start request to the held address, and the address changes only by
      a star_car request, which clears both capability flags. */
  lemma ApplyNext(s: State, e: Event)
    ensures var step := Apply(s, e);
            var x := step.sent[0];
            var t := step.next;
            (!t.connected ==>
               (t.ip == "" && t.port == DefaultPort) || (!s.connected && (t.ip, t.port) == (s.ip, s.port)))
            && (t.connected ==>
               (s.connected && (t.ip, t.port) == (s.ip, s.port) && x.script != StarCar)
               || (x.script == StarCar && (t.ip, t.port) == (x.ip, x.port)))
            && (t.slamActive ==>
               (t.ip, t.port) == (s.ip, s.port)
               && ((s.slamActive && x.script != SlamYdlidar) || x == Request(s.ip, s.port, SlamYdlidar)))
            && (t.locActive ==>
               (t.ip, t.port) == (s.ip, s.port)
               && ((s.locActive && x.script != LocalizationYdlidar) || x == Request(s.ip, s.port, LocalizationYdlidar)))
  {
  }

  /** One press keeps the run invariant and issues exactly one request. */
  lemma ApplyKeepsInvariant(prev: Step, e: Event)
    requires RunInvariant(prev)
    ensures var step := Apply(prev.next, e);
            |step.sent| == 1 && RunInvariant(Step(step.next, prev.sent + step.sent, step.box))
  {
    var s := prev.next;
    var step := Apply(s, e);
    ApplyRequest(s, e);
    ApplyNext(s, e);
    var x := step.sent[0];
    assert step.sent == [x];
    LastOfAppend(prev.sent, x, StarCar);
    LastOfAppend(prev.sent, x, SlamYdlidar);
    LastOfAppend(prev.sent, x, LocalizationYdlidar);
    StopsFollowAppend(prev.sent, x, StarCar, StarCarStop);
    StopsFollowAppend(prev.sent, x, SlamYdlidar, SlamYdlidarStop);
    StopsFollowAppend(prev.sent, x, LocalizationYdlidar, LocalizationYdlidarStop);
  }

  /** In every run every button press issues exactly one request; while connected, or while SLAM or
      localization is active, the held address is the one of the last request that started it; while
      disconnected the fields hold their defaults; and every stop goes to the address of the
      preceding start of the same script. */
  lemma {:induction false} RunKeepsInvariant(events: seq<Event>)
    ensures |Run(events).sent| == |events|
    ensures RunInvariant(Run(events))
    decreases |events|
  {
    if events != [] {
      var prefix := events[..|events| - 1];
      RunKeepsInvariant(prefix);
      ApplyKeepsInvariant(Run(prefix), events[|events| - 1]);
    }
  }

  /** The stop that disconnect sends always reaches the host and port the car was started on. */
  lemma StopsGoWhereStarted(events: seq<Event>, k: nat)
    requires k < |Run(events).sent| && Run(events).sent[k].script == StarCarStop
    ensures LastOf(Run(events).sent[..k], StarCar) == Some(Request(Run(events).sent[k].ip, Run(events).sent[k].port, StarCar))
  {
    RunKeepsInvariant(events);
  }

  /** The stops the SLAM and localization buttons hand to a thread always reach the host and port
      the same capability was last started on: the held address cannot change while its flag is set. */
  lemma CapabilityStopsGoWhereStarted(events: seq<Event>, k: nat)
    requires k < |Run(events).sent|
    ensures var log := Run(events).sent;
            (log[k].script == SlamYdlidarStop ==>
               LastOf(log[..k], SlamYdlidar) == Some(Request(log[k].ip, log[k].port, SlamYdlidar)))
            && (log[k].script == LocalizationYdlidarStop ==>
               LastOf(log[..k], LocalizationYdlidar) == Some(Request(log[k].ip, log[k].port, LocalizationYdlidar)))
  {
    RunKeepsInvariant(events);
  }
}
