/** main.py's `IPInputWindow`: a stand-alone connect window with a single `connected` flag that
    the replies to its start and stop requests toggle. The widgets are left out; the model receives
    the text of the IP field and the reply of the request the click makes. */
module Window {
  import opened Protocol
  import Text
  import IpAddress
  import Session

  /** The effect of one click: the new flag, the requests issued and the message box shown. */
  datatype ClickStep = ClickStep(connected: bool, sent: seq<Request>, box: MessageBox)

  /** `on_connect_click`: strip the field, refuse an invalid address, otherwise GET star_car (when
      disconnected) or star_car_stop (when connected) on port 5000 of the typed address. */
  ghost function ConnectClick(connected: bool, text: string, reply: Reply): ClickStep {
    var ip := Text.Strip(text);
    if !IpAddress.IsDottedQuad(ip) then ClickStep(connected, [], WarningBox)
    else if !connected then
      var sent := [Request(ip, DefaultPort, StarCar)];
      if reply.Failure? then ClickStep(connected, sent, CriticalBox)
      else if HasStatus(reply, StartedStatus) then ClickStep(true, sent, InformationBox)
      else ClickStep(connected, sent, WarningBox)
    else
      var sent := [Request(ip, DefaultPort, StarCarStop)];
      if reply.Failure? then ClickStep(connected, sent, CriticalBox)
      else if HasStatus(reply, StopSuccessStatus) then ClickStep(false, sent, InformationBox)
      else ClickStep(connected, sent, WarningBox)
  }

  class IPInputWindow {
    var connected: bool
    /** Every request the window issued, in order. */
    ghost var sent: seq<Request>

    constructor ()
      ensures !connected && sent == []
    {
      connected := false;
      sent := [];
    }

    /** main.py's own copy of `validate_ip`; it decides the same set as `Backend.ValidateIp`. */
    static method ValidateIp(ip: string) returns (ok: bool)
      ensures ok <==> IpAddress.IsDottedQuad(ip)
    {
      IpAddress.DottedQuadIffOctets(ip);
      var parts := Text.Split(ip, '.');
      if |parts| != 4 {
        return false;
      }
      for i := 0 to |parts|
        invariant forall j :: 0 <= j < i ==> IpAddress.IsOctet(parts[j])
      {
        var p := parts[i];
        if !Text.IsDigits(p) {
          return false;
        }
        var num: int := Text.DigitsValue(p);
        if num < 0 || num > 255 {
          return false;
        }
      }
      return true;
    }

    method OnConnectClick(text: string, reply: Reply) returns (box: MessageBox)
      modifies this
      ensures var step := ConnectClick(old(connected), text, reply);
              connected == step.connected && sent == old(sent) + step.sent && box == step.box
    {
      var ip := Text.Strip(text);
      var valid := ValidateIp(ip);
      if !valid {
        return WarningBox;
      }
      if !connected {
        sent := sent + [Request(ip, DefaultPort, StarCar)];
        match reply {
          case Failure =>
            box := CriticalBox;
          case Response(status, _) =>
            if status == Some(StartedStatus) {
              connected := true;
              box := InformationBox;
            } else {
              box := WarningBox;
            }
        }
      } else {
        sent := sent + [Request(ip, DefaultPort, StarCarStop)];
        match reply {
          case Failure =>
            box := CriticalBox;
          case Response(status, _) =>
            if status == Some(StopSuccessStatus) {
              connected := false;
              box := InformationBox;
            } else {
              box := WarningBox;
            }
        }
      }
    }
  }

  /** An address that does not validate after stripping issues no request and keeps the flag, in
      both directions of the toggle. */
  lemma InvalidIpChangesNothing(connected: bool, text: string, reply: Reply)
    requires !IpAddress.IsDottedQuad(Text.Strip(text))
    ensures ConnectClick(connected, text, reply) == ClickStep(connected, [], WarningBox)
  {
  }

  /** With a valid address the click sends one request to port 5000 of the stripped address:
      star_car when disconnected, which connects exactly on the started status, and star_car_stop
      when connected, which disconnects exactly on the status "success". Any other reply, or a
      failed request, keeps the flag. */
  lemma ClickToggles(connected: bool, text: string, reply: Reply)
    requires IpAddress.IsDottedQuad(Text.Strip(text))
    ensures var step := ConnectClick(connected, text, reply);
            step.sent == [Request(Text.Strip(text), DefaultPort, if connected then StarCarStop else StarCar)]
            && (!connected ==> (step.connected <==> HasStatus(reply, StartedStatus)))
            && (connected ==> (step.connected <==> !HasStatus(reply, StopSuccessStatus)))
  {
  }

  /** The window connects on fewer replies than backend.py: a reply whose message says the script
      is already active, but whose status is not the started status, connects the backend but
      leaves the window disconnected. */
  lemma StricterThanBackend(text: string, s: Session.State, port: int, status: Option<string>, msg: string)
    requires IpAddress.IsDottedQuad(Text.Strip(text))
    requires status != Some(StartedStatus) && Text.Contains(msg, AlreadyActivePhrase)
    ensures var reply := Response(status, Some(msg));
            !ConnectClick(false, text, reply).connected
            && Session.ConnectToServer(s, Text.Strip(text), port, reply).next.connected
  {
    Session.ConnectAcceptedIff(status, msg);
  }

  /** Unlike backend.py, the window addresses its stop to whatever the field holds at the second
      click, not to the address it connected to: after connecting through `typed1`, a click with
      `typed2` sends star_car_stop to `typed2`'s address and, on "success", reports the window
      disconnected. */
  lemma StopFollowsTypedAddress(typed1: string, typed2: string, r1: Reply, r2: Reply)
    requires HasStatus(r1, StartedStatus) && HasStatus(r2, StopSuccessStatus)
    ensures var first := ConnectClick(false, typed1, r1);
            var second := ConnectClick(first.connected, typed2, r2);
            (IpAddress.IsDottedQuad(Text.Strip(typed1)) && IpAddress.IsDottedQuad(Text.Strip(typed2))) ==>
              (first.connected && !second.connected
               && first.sent + second.sent
                  == [Request(Text.Strip(typed1), DefaultPort, StarCar), Request(Text.Strip(typed2), DefaultPort, StarCarStop)])
  {
  }
}
