/** The control-plane exchange both front ends use: a GET to
    `http://<ip>:<port>/run-script/<script>` answered by a JSON object with a "status" and a
    "message" field. The GET itself is not modelled; each operation receives the reply it got. */
module Protocol {
  import Text

  datatype Option<T> = None | Some(value: T)

  /** What one GET produced: the string values of the reply's "status" and "message" keys
      (None when the key is absent), or Failure when `requests.get` or `resp.json()` raised. */
  datatype Reply = Response(status: Option<string>, message: Option<string>) | Failure

  /** The scripts the clients start and stop, named in the URL as star_car, star_car_stop,
      slam_ydlidar, slam_ydlidar_stop, localization_ydlidar, localization_ydlidar_stop and store_map. */
  datatype Script =
    | StarCar | StarCarStop
    | SlamYdlidar | SlamYdlidarStop
    | LocalizationYdlidar | LocalizationYdlidarStop
    | StoreMapScript

  /** One GET to `http://<ip>:<port>/run-script/<script>`, kept as its three parts. */
  datatype Request = Request(ip: string, port: int, script: Script)

  /** Which message box an operation pops up, if any. */
  datatype MessageBox = NoBox | InformationBox | WarningBox | CriticalBox

  const StartedStatus: string := "Script execution started"
  const AlreadyActivePhrase: string := "already active"
  const StopSuccessStatus: string := "success"
  const DefaultPort: int := 5000

  /** `data.get("message", "")`. */
  function MessageOrEmpty(reply: Reply): string
    requires reply.Response?
  {
    match reply.message
    case Some(m) => m
    case None => ""
  }

  /** `data.get("status") == status`: an absent status never matches. */
  predicate HasStatus(reply: Reply, status: string) {
    reply.Response? && reply.status == Some(status)
  }

  /** The connect test of backend.py: started, or a message that says the script is already active. */
  predicate ConnectAccepted(reply: Reply) {
    reply.Response?
    && (reply.status == Some(StartedStatus) || Text.Contains(MessageOrEmpty(reply), AlreadyActivePhrase))
  }
}
