# Robot control client: session state machine

This project models the connection logic of a desktop client for a remotely operated robot.
The client starts and stops named scripts on the robot's control-plane host. Each start or stop is
a GET to `http://<ip>:<port>/run-script/<script>`, and the host answers with a JSON object holding
`status` and `message`.

There are two versions of the logic:

- `backend.py`, class `Backend`, has five fields: `connected`, `current_ip`, `current_port`,
  `slam_active` and `loc_active`.
  - Connecting GETs `star_car`. It succeeds when the status is exactly
    `"Script execution started"` or the message contains `"already active"`.
  - Disconnecting hands `star_car_stop` to a thread, then resets every field.
  - SLAM and localization are toggles. Switching one on needs the exact started status.
    Switching one off clears its flag at once and hands the stop to a thread.
  - Storing the map changes nothing.
- `main.py`, class `IPInputWindow`, is a smaller stand-alone window with a single `connected` flag.
  The start reply sets the flag and the stop reply (status `"success"`) clears it.

Both files carry their own copy of `validate_ip`. It splits on `.`, demands four parts and checks
that each part is all digits with a value of at most 255.

Files:

- `text.dfy` (module `Text`): the Python string operations the code relies on. These are `split`,
  `join`, `isdigit`, `int` on digit strings, substring search and `strip`. Each comes with its
  properties, for example that join undoes split and split undoes join.
- `ip.dfy` (module `IpAddress`): what `validate_ip` accepts. `IsDottedQuad` is the reference
  meaning, "four octets joined by dots". `SplitsIntoOctets` is backend.py's split-and-check
  reading. A lemma proves the two equal.
- `protocol.dfy` (module `Protocol`): replies, scripts, requests, message boxes and the constants
  `"Script execution started"`, `"already active"`, `"success"` and `5000`.
- `session.dfy` (module `Session`): backend.py's state machine as pure functions over its five
  fields, with lemmas. The main theorem, `RunKeepsInvariant`, covers any sequence of button
  presses. In every such run, every stop request goes to the address of the latest start request
  of the same script.
- `backend.dfy` (module `Backend`): the class `Backend`. Its methods update the fields in place and
  are proved to follow the `Session` functions. The ghost field `sent` records every request the
  object issues.
- `window.dfy` (module `Window`): main.py's click handler, both as a function and as the class
  `IPInputWindow`, with lemmas.

Network calls are inputs. Each operation receives the `Reply` its request got: either
`Response(status, message)` or `Failure`. A thread that sends a stop is recorded as an append to
`sent` at the moment the thread starts.

Some things one might expect of a robot control client are absent from this code, and the model does not add them:

- SLAM and localization do not exclude each other (`Session.TogglesCommute`,
  `Session.BothCapabilitiesCanBeActive`).
- Disconnect sends only `star_car_stop`, even when a capability is active (`Session.DisconnectResets`).
- There is no camera, perception, bridge retry, telemetry or reset logic in the modelled files.

## Model

| member | source | states |
|---|---|---|
| `Backend.Backend.constructor` | backend.py:6-11 | A new backend is disconnected: empty ip, port 5000, both flags false, nothing sent |
| `Backend.Backend.ValidateIp` | backend.py:13-24 | Returns true exactly when the string is four octets (non-empty ASCII digit strings, value at most 255) joined by dots; loop invariant: every part checked so far is an octet |
| `IpAddress.DottedQuadIffOctets` | backend.py:14-24 | backend.py's reading (split on '.', exactly 4 parts, each all digits with value at most 255) accepts exactly the dotted quads |
| `IpAddress.OctetLeadingZero` | backend.py:18-23 | A '0' in front of a part that passes the digit and range checks gives a part that passes them too |
| `IpAddress.LeadingZerosAccepted` | backend.py:15-24 | For any four accepted parts and any position among the four, putting '0' in front of that part and joining with dots gives an accepted address |
| `IpAddress.AcceptsLeadingZeroAddress` | backend.py:18-23 | "010.0.0.1" is accepted |
| `IpAddress.AcceptsTypicalAddress` | backend.py:13-24 | "10.0.0.5" is accepted |
| `IpAddress.RejectsEmptyPart` | backend.py:15-20 | "1..2.3" is rejected: the empty part fails the digit check |
| `IpAddress.RejectsOutOfRange` | backend.py:21-23 | "10.0.0.300" is rejected: 300 > 255 |
| `IpAddress.RejectsWrongPartCount` | backend.py:15-17 | "1.2.3" is rejected: three parts, not four |
| `Text.Split` | backend.py:15 | `split('.')` yields at least one part and no part contains the separator |
| `Text.JoinSplit` | backend.py:15 | Joining the parts of a split with the separator gives back the original string |
| `Text.SplitJoin` | backend.py:15 | Splitting a join of separator-free parts gives back exactly those parts |
| `Text.LeadingZeroNeutral` | backend.py:19-21 | A leading '0' keeps a digit string a digit string and does not change `int()` of it |
| `Text.ContainsIff` | backend.py:38 | The substring test `sub in s` holds exactly when some index of `s` starts an occurrence of `sub` |
| `Text.TrimStart` | main.py:34 | The result is a suffix of the input; every dropped character is whitespace; the result does not start with whitespace |
| `Text.TrimEnd` | main.py:34 | The result is a prefix of the input; every dropped character is whitespace; the result does not end with whitespace |
| `Text.Strip` | main.py:34 | `strip()` gives a string that neither starts nor ends with whitespace |
| `Text.StripPadded` | main.py:34 | `strip()` removes exactly the whitespace padding around a text whose ends are not whitespace |
| `Backend.Backend.HandleConnection` | backend.py:26-30 | New fields, requests and message box are those of `Session.HandleConnection`: connect when disconnected, disconnect otherwise |
| `Session.HandleConnectionToggles` | backend.py:26-30 | The button connects exactly when it was disconnected and the connect test passes; when connected it always disconnects, whatever the reply |
| `Backend.Backend.ConnectToServer` | backend.py:32-45 | Issues star_car to the given address; the fields become those of `Session.ConnectToServer`; information, warning or critical box by outcome |
| `Session.ConnectAcceptedIff` | backend.py:37-39 | A reply passes the connect test exactly when its status is "Script execution started" or its message contains "already active"; an absent message counts as empty, so then only the status decides; a failed request never passes |
| `Session.ConnectAcceptedCommits` | backend.py:33-41 | Any reply that passes the connect test, with or without a message, whatever the prior state: the new fields are connected, the given ip and port, both flags false; one star_car request to the given address; information box |
| `Session.AlreadyActiveLikeStarted` | backend.py:37-39 | A reply whose message contains "already active", with any status, has exactly the effect of a started reply |
| `Session.ConnectRejectedChangesNothing` | backend.py:38-45 | A reply failing the connect test, or a failed request, leaves all five fields unchanged; star_car was still sent to the given address |
| `Backend.Backend.DisconnectFromServer` | backend.py:47-50 | Appends one star_car_stop for the address held before the reset, then resets all five fields |
| `Session.DisconnectResets` | backend.py:47-64 | After disconnect the fields are the initial ones whatever the prior state; exactly one request is issued: star_car_stop to the ip and port held before the reset |
| `Session.ConnectThenDisconnect` | backend.py:26-64 | An accepted connect followed by a second press (with any address typed) returns to the initial fields; the requests are star_car then star_car_stop, both to the connected address |
| `Backend.Backend.SetConnected` | backend.py:52-57 | connected, the given ip and port, both flags false; nothing sent |
| `Backend.Backend.SetDisconnected` | backend.py:59-64 | The initial fields: disconnected, empty ip, port 5000, both flags false; nothing sent |
| `Backend.Backend.StartSlam` | backend.py:66-78 | The fields, requests and box are those of `Session.StartSlam` |
| `Session.StartSlamToggles` | backend.py:66-78 | Only `slam_active` changes. When off, it turns on exactly on the status "Script execution started", and slam_ydlidar goes to the current address. When on, it turns off whatever the reply, and one slam_ydlidar_stop goes to the current address |
| `Session.SlamIgnoresAlreadyActive` | backend.py:66-78 | A reply with "already active" in its message but not the started status connects the session, yet leaves SLAM off |
| `Session.SlamRoundTrip` | backend.py:66-78 | SLAM on (started) then off restores every field; start and stop go to the same address |
| `Backend.Backend.StoreMap` | backend.py:80-91 | No field changes; one store_map request to the current address; information box only on the started status |
| `Session.StoreMapChangesNoField` | backend.py:80-91 | store_map leaves all five fields as they were and issues one store_map request to the current address |
| `Backend.Backend.Localization` | backend.py:93-105 | The fields, requests and box are those of `Session.Localization` |
| `Session.LocalizationToggles` | backend.py:93-105 | Only `loc_active` changes. When off, it turns on exactly on the started status. When on, it turns off whatever the reply, and one localization_ydlidar_stop goes to the current address |
| `Session.LocalizationRoundTrip` | backend.py:93-105 | Localization on (started) then off restores every field; start and stop go to the same address |
| `Session.TogglesCommute` | backend.py:66-105 | The SLAM and localization toggles commute: neither reads or writes the other's flag |
| `Session.BothCapabilitiesCanBeActive` | backend.py:66-105 | From a fresh connection, starting SLAM and then localization leaves both flags set: there is no mutual exclusion |
| `Backend.Backend.SendSlamStop` | backend.py:108-112 | Appends exactly one slam_ydlidar_stop request for the given address |
| `Backend.Backend.SendLocStop` | backend.py:114-118 | Appends exactly one localization_ydlidar_stop request for the given address |
| `Backend.Backend.SendStarCarStop` | backend.py:120-124 | Appends exactly one star_car_stop request for the given address |
| `Session.ApplyRequest` | backend.py:26-124 | Each press issues exactly one request; a star_car_stop, slam_ydlidar_stop or localization_ydlidar_stop is issued only while its flag is set, and goes to the held address |
| `Session.ApplyNext` | backend.py:26-105 | After one press: disconnected means the defaults or an unchanged address; connected means the same address as before or that of the star_car just sent; a set SLAM or localization flag means the address is unchanged and the flag was already set or its start request was just sent to that address |
| `Session.RunKeepsInvariant` | backend.py:26-124 | In any sequence of connect, SLAM, store-map and localization presses: each press issues exactly one request; while connected the held address is that of the last star_car request; while SLAM or localization is active the held address is that of its last start request; while disconnected the fields hold the defaults; every stop goes to the address of the preceding start of the same script |
| `Session.StopsGoWhereStarted` | backend.py:47-50 | In any run of button presses, each star_car_stop is addressed to the host and port of the last star_car request before it |
| `Session.CapabilityStopsGoWhereStarted` | backend.py:66-124 | In any run of button presses, each slam_ydlidar_stop goes to the host and port of the last slam_ydlidar request before it, and each localization_ydlidar_stop to those of the last localization_ydlidar request |
| `Window.IPInputWindow.constructor` | main.py:6-9 | A new window is disconnected and has sent nothing |
| `Window.IPInputWindow.ValidateIp` | main.py:68-79 | Returns true exactly when the string is a dotted quad, the same predicate `Backend.Backend.ValidateIp` decides |
| `Window.IPInputWindow.OnConnectClick` | main.py:33-66 | The flag, requests and box are those of `Window.ConnectClick` applied to the old flag, the field text and the reply |
| `Window.InvalidIpChangesNothing` | main.py:34-37 | A stripped text that is not a dotted quad issues no request, keeps the flag in either direction and shows a warning |
| `Window.ClickToggles` | main.py:39-66 | With a valid address, one request to port 5000 of the stripped address: star_car when disconnected, which connects exactly on the started status; star_car_stop when connected, which disconnects exactly on "success". Any other reply or a failure keeps the flag |
| `Window.StricterThanBackend` | main.py:39-52 | For any valid typed address, any reply whose status is not the started status but whose message contains "already active" connects backend.py's session but leaves the window disconnected |
| `Window.StopFollowsTypedAddress` | main.py:53-66 | After connecting, the stop goes to the address typed at the second click, not to the one connected to; on "success" the window reports itself disconnected |

## Left out

- Networking: `requests.get`, its 5-second timeout, URL formatting and `resp.json()` are not modelled. Each operation receives its reply as a parameter. A reply whose `status` or `message` is not a string (a number, a list, JSON null), or a body that is not a JSON object, is not represented. Where Python would raise on such a reply, it belongs to `Failure`.
- Empty host: a request to the empty host of a disconnected backend (`start_slam` before connecting) always fails in practice. The model accepts whatever reply it is given.
- Threads: the `Thread(...).start()` stop dispatches are modelled as appends to the ghost log `sent` at dispatch time. Their completion, their ignored errors and any interleaving with later operations are not modelled.
- Message boxes: only which box is shown (`MessageBox`) is modelled, not its text.
- UI: the calls `frontend.update_ui_on_connection` and `update_ui_on_disconnection`, and main.py's button text and window layout, are not modelled.
- frontend.py and build.py are not part of this model. This includes frontend.py's port parsing (empty means 5000, otherwise Python `int()`). The SLAM, store-map, localization and reset buttons are never wired to handlers there. The run lemmas include those presses anyway.
- Unicode digits: `str.isdigit` also accepts non-ASCII digits, and for some of them (such as '²') the following `int()` raises. The model accepts only ASCII '0'..'9'.
- `strip()`: the model uses Python's default whitespace set, written out character by character in `Text.IsSpace`.
- Backend.Backend.ValidateIp: does not model CPython's limit on `int()` of a digit string (since 3.11, and in the security releases of 3.7 to 3.10): a part longer than 4300 digits, leading zeros included, makes `int(p)` raise `ValueError`, so `validate_ip` raises instead of returning. The model reads digit strings of any length and accepts such an address.
- Window.IPInputWindow.ValidateIp: the same gap as `Backend.Backend.ValidateIp`. In main.py the exception would escape `on_connect_click` and show no box; the model accepts the address and sends the request.
- Text.LeadingZeroNeutral: holds for digit strings of any length; CPython's `int()` raises once the string passes 4300 digits, which the model does not represent.
- IpAddress.OctetLeadingZero: a '0' in front of a part of 4300 digits gives a part that CPython's `int()` rejects; the model has no length limit, so it states the claim for every length.
- IpAddress.LeadingZerosAccepted: repeated zero-prefixing stays accepted in the model without bound, while CPython raises once a part passes 4300 digits.
- Port: Python's unbounded `int` is modelled as `int`. No range check exists in the modelled code.
- The code has no mutual exclusion of SLAM and localization, no camera or perception, no bridge with bounded retry, no telemetry publishing, no reset, and does not stop every capability on disconnect; the model has none of these either.
