/** backend.py's `Backend`: five fields updated in place by the connect, disconnect and capability
    operations. Each network call is replaced by the `Reply` it received; the ghost field `sent`
    records every request the object issues, the stop requests at the moment their thread is started. */
module Backend {
  import opened Protocol
  import Text
  import IpAddress
  import S = Session

  class Backend {
    var connected: bool
    var currentIp: string
    var currentPort: int
    var slamActive: bool
    var locActive: bool
    ghost var sent: seq<Request>

    /** The five fields as one value. */
    function State(): S.State
      reads this
    {
      S.State(connected, currentIp, currentPort, slamActive, locActive)
    }

    constructor ()
      ensures State() == S.Initial && sent == []
    {
      connected := false;
      currentIp := "";
      currentPort := DefaultPort;
      slamActive := false;
      locActive := false;
      sent := [];
    }

    /** `validate_ip`: split on '.', demand four parts, then check each part in turn. The `n < 0`
        test can never succeed, since a part that passed the digit check has no sign. */
    static method ValidateIp(ip: string) returns (ok: bool)
      ensures ok <==> IpAddress.IsDottedQuad(ip)
    {
      IpAddress.DottedQuadIffOctets(ip);
      var parts := Text.Split(ip, '.');
      if |parts| != 4 {
        return false;
      }
      for i := 0 to |parts|
        invariant forall j :: 0 <= j < i ==> IpAddress.IsOctet(parts[j])
      {
        var p := parts[i];
        if !Text.IsDigits(p) {
          return false;
        }
        var n: int := Text.DigitsValue(p);
        if n < 0 || n > 255 {
          return false;
        }
      }
      return true;
    }

    method HandleConnection(ip: string, port: int, reply: Reply) returns (box: MessageBox)
      modifies this
      ensures var step := S.HandleConnection(old(State()), ip, port, reply);
              State() == step.next && sent == old(sent) + step.sent && box == step.box
    {
      if !connected {
        box := ConnectToServer(ip, port, reply);
      } else {
        DisconnectFromServer();
        box := NoBox;
      }
    }

    method ConnectToServer(ip: string, port: int, reply: Reply) returns (box: MessageBox)
      modifies this
      ensures var step := S.ConnectToServer(old(State()), ip, port, reply);
              State() == step.next && sent == old(sent) + step.sent && box == step.box
    {
      sent := sent + [Request(ip, port, StarCar)];
      match reply {
        case Failure =>
          box := CriticalBox;
        case Response(status, message) =>
          var msg := if message.Some? then message.value else "";
          if status == Some(StartedStatus) || Text.Contains(msg, AlreadyActivePhrase) {
            SetConnected(ip, port);
            box := InformationBox;
          } else {
            box := WarningBox;
          }
      }
    }

    method DisconnectFromServer()
      modifies this
      ensures var step := S.DisconnectFromServer(old(State()));
              State() == step.next && sent == old(sent) + step.sent
    {
      SendStarCarStop(currentIp, currentPort);
      SetDisconnected();
    }

    method SetConnected(ip: string, port: int)
      modifies this
      ensures State() == S.Connected(ip, port) && sent == old(sent)
    {
      connected := true;
      currentIp := ip;
      currentPort := port;
      slamActive := false;
      locActive := false;
    }

    method SetDisconnected()
      modifies this
      ensures State() == S.Initial && sent == old(sent)
    {
      connected := false;
      currentIp := "";
      currentPort := DefaultPort;
      slamActive := false;
      locActive := false;
    }

    method StartSlam(reply: Reply) returns (box: MessageBox)
      modifies this
      ensures var step := S.StartSlam(old(State()), reply);
              State() == step.next && sent == old(sent) + step.sent && box == step.box
    {
      if !slamActive {
        sent := sent + [Request(currentIp, currentPort, SlamYdlidar)];
        match reply {
          case Failure =>
            box := CriticalBox;
          case Response(status, _) =>
            if status == Some(StartedStatus) {
              slamActive := true;
              box := InformationBox;
            } else {
              box := NoBox;
            }
        }
      } else {
        slamActive := false;
        SendSlamStop(currentIp, currentPort);
        box := NoBox;
      }
    }

    method StoreMap(reply: Reply) returns (box: MessageBox)
      modifies this`sent
      ensures var step := S.StoreMap(old(State()), reply);
              State() == step.next && sent == old(sent) + step.sent && box == step.box
    {
      sent := sent + [Request(currentIp, currentPort, StoreMapScript)];
      match reply {
        case Failure =>
          box := CriticalBox;
        case Response(status, _) =>
          box := if status == Some(StartedStatus) then InformationBox else WarningBox;
      }
    }

    method Localization(reply: Reply) returns (box: MessageBox)
      modifies this
      ensures var step := S.Localization(old(State()), reply);
              State() == step.next && sent == old(sent) + step.sent && box == step.box
    {
      if !locActive {
        sent := sent + [Request(currentIp, currentPort, LocalizationYdlidar)];
        match reply {
          case Failure =>
            box := CriticalBox;
          case Response(status, _) =>
            if status == Some(StartedStatus) {
              locActive := true;
              box := InformationBox;
            } else {
              box := NoBox;
            }
        }
      } else {
        locActive := false;
        SendLocStop(currentIp, currentPort);
        box := NoBox;
      }
    }

    /** `_send_slam_stop`, run on its own thread: its outcome is discarded. */
    ghost method SendSlamStop(ip: string, port: int)
      modifies this`sent
      ensures sent == old(sent) + [Request(ip, port, SlamYdlidarStop)]
    {
      sent := sent + [Request(ip, port, SlamYdlidarStop)];
    }

    /** `_send_loc_stop`, run on its own thread: its outcome is discarded. */
    ghost method SendLocStop(ip: string, port: int)
      modifies this`sent
      ensures sent == old(sent) + [Request(ip, port, LocalizationYdlidarStop)]
    {
      sent := sent + [Request(ip, port, LocalizationYdlidarStop)];
    }

    /** `_send_starcar_stop`, run on its own thread: its outcome is discarded. */
    ghost method SendStarCarStop(ip: string, port: int)
      modifies this`sent
      ensures sent == old(sent) + [Request(ip, port, StarCarStop)]
    {
      sent := sent + [Request(ip, port, StarCarStop)];
    }
  }
}
