/**
  Vocabulary shared by the whole model: outcome categories, protocols, devices, relay agents,
  agent jobs and credential-test rows. Identifiers are natural numbers; instants are whole
  seconds. A SQL NULL or a nil pointer is `None`.
 */
module Domain {

  datatype Option<+T> = None | Some(value: T)

  /** Outcome categories of a collection attempt or credential test. `Blank` is the empty text. */
  datatype Category =
    | Success | AuthFailed | Unsupported | AccessDenied | WmiAccessDenied | WmiAuthFailed
    | LockoutSuspected | NamespaceUnavailable | OperationFault | NegotiateError | ConnectTimeout
    | AgentNoResult | GenericError | Blank | OtherCategory(code: nat)

  /** Management protocols; a credential's kind uses the same tokens. */
  datatype Protocol = Winrm | Wmi | Ssh | HttpBasic | Http | Nvr | OtherProtocol(token: nat)

  predicate IsWeb(p: Protocol) { p == HttpBasic || p == Http }

  datatype DeviceClass =
    | Camera | Endpoint | Switch | Router | Firewall | ServerClass | WirelessController
    | VirtualHost | NvrClass | Pbx | Database | OtherClass(tag: nat)

  datatype OsFamily = Windows | Linux | OtherOs

  datatype Device = Device(location: Option<nat>, cred: Option<nat>, deviceClass: DeviceClass, os: OsFamily, up: bool)

  /** A relay agent row; rows are listed by name, so an index stands for the identifier. */
  datatype Agent = Agent(location: Option<nat>, enabled: bool, online: bool, heartbeat: Option<int>)

  datatype JobKind = CollectOs | TestJob
  datatype Status = Queued | Dispatched | Done | Failed

  /** A row of agent_jobs. Rows are never deleted here, and an index is the creation order. */
  datatype Job = Job(
    agent: nat, device: Option<nat>, cred: Option<nat>, kind: JobKind, protocol: Protocol,
    status: Status, attempt: nat, maxAttempts: nat, nextAt: Option<int>,
    createdAt: int, dispatchedAt: Option<int>, finishedAt: Option<int>, category: Category)

  /** A row of credential_test_results that carries a non-empty kind. */
  datatype TestRow = TestRow(device: nat, cred: nat, kind: Protocol, category: Category, success: bool, at: int)

  /** A list without repeats. */
  ghost predicate Distinct(ids: seq<nat>) { forall i, k :: 0 <= i < k < |ids| ==> ids[i] != ids[k] }

  ghost function Members(ids: seq<nat>): set<nat> { set i | i in ids }

  lemma {:induction false} MembersCard(ids: seq<nat>)
    requires Distinct(ids)
    ensures |Members(ids)| == |ids|
  {
    if ids != [] {
      var init, last := ids[..|ids| - 1], ids[|ids| - 1];
      MembersCard(init);
      assert Members(ids) == Members(init) + {last};
    }
  }
}
