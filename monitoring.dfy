/**
  The monitoring socket's `message` handler: each inbound message gets one
  answer `{method, id, error, ...}`. Parsing and sending are outside the model;
  a message arrives already parsed.
 */
module Monitoring {
  import opened Wrappers
  import opened Roster

  /** A JSON value as far as the handler looks at it. */
  datatype Value = VNull | VBool(b: bool) | VNumber(n: int) | VString(s: string) | VComposite

  /** `JSON.parse` threw, or gave something that is not an object (then `"method" in` throws). */
  datatype ParsedMessage = Malformed | Message(fields: map<string, Value>)

  datatype TransferError = TransferError(ts: int, textLog: string)

  /** The one extra field an answer may carry. */
  datatype Extra =
    | NoExtra
    | SChainNetworkInfo(info: Option<NetworkInfo>)
    | RuntimeParams(params: map<string, Value>)
    | LastTransferErrors(errors: seq<TransferError>)

  datatype Answer = Answer(methodName: Value, id: Value, error: Value, extra: Extra)

  /** What the handler reads: the roster snapshot, `imaState`'s own fields, and the transfer error log. */
  datatype MonitorState = MonitorState(
    networkInfo: Option<NetworkInfo>,
    runtime: map<string, Value>,
    lastTransferErrors: seq<TransferError>)

  /** The allow-list of `imaState` fields that `get_runtime_params` reports. */
  const RuntimeParamNames: seq<string> := [
    "bNoWaitSChainStarted", "nMaxWaitSChainAttempts", "isPreventExitAfterLastAction",
    "strURL_main_net", "strURL_s_chain",
    "strChainName_main_net", "strChainName_s_chain", "cid_main_net", "cid_s_chain",
    "nTransferBlockSizeM2S", "nTransferBlockSizeS2M", "nMaxTransactionsM2S", "nMaxTransactionsS2M",
    "nBlockAwaitDepthM2S", "nBlockAwaitDepthS2M", "nBlockAgeM2S", "nBlockAgeS2M",
    "nLoopPeriodSeconds",
    "nNodeNumber", "nNodesCount", "nTimeFrameSeconds", "nNextFrameGap",
    "optsPendingTxAnalysis",
    "nMonitoringPort"]

  /** The allow-listed fields that exist in the state, with their values. */
  function RuntimeParamsOf(runtime: map<string, Value>): map<string, Value>
  {
    map name | name in RuntimeParamNames && name in runtime :: runtime[name]
  }

  /** The loop that fills `joAnswer.runtime_params`. */
  method CollectRuntimeParams(runtime: map<string, Value>) returns (params: map<string, Value>)
    ensures forall name :: name in params <==> name in RuntimeParamNames && name in runtime
    ensures forall name :: name in params ==> params[name] == runtime[name]
    ensures params == RuntimeParamsOf(runtime)
  {
    params := map[];
    var i := 0;
    while i < |RuntimeParamNames|
      invariant 0 <= i <= |RuntimeParamNames|
      invariant forall name :: name in params <==> name in RuntimeParamNames[..i] && name in runtime
      invariant forall name :: name in params ==> params[name] == runtime[name]
    {
      var paramName := RuntimeParamNames[i];
      if paramName in runtime {
        params := params[paramName := runtime[paramName]];
      }
      i := i + 1;
    }
    assert RuntimeParamNames[..i] == RuntimeParamNames;
  }

  /** The fields the `switch` adds for the method name `m`. */
  function ExtraFor(m: Value, st: MonitorState): Extra
  {
    if m == VString("get_schain_network_info") then SChainNetworkInfo(st.networkInfo)
    else if m == VString("get_runtime_params") then RuntimeParams(RuntimeParamsOf(st.runtime))
    else if m == VString("get_last_transfer_errors") then LastTransferErrors(st.lastTransferErrors)
    else NoExtra  // "echo", "ping", and unknown names (whose exception is only logged)
  }

  /**
    The answer to one message. `method` and `id` are copied only once each has
    been found; `error` starts null and nothing ever assigns it.
   */
  function Dispatch(msg: ParsedMessage, st: MonitorState): (a: Answer)
    ensures a.error == VNull
    ensures (msg.Malformed? || "method" !in msg.fields) ==> a == Answer(VNull, VNull, VNull, NoExtra)
    ensures msg.Message? && "method" in msg.fields ==> a.methodName == msg.fields["method"]
    ensures msg.Message? && "method" in msg.fields && "id" in msg.fields ==> a.id == msg.fields["id"]
    ensures a.id != VNull ==> msg.Message? && "method" in msg.fields && "id" in msg.fields
    ensures a.extra != NoExtra ==> msg.Message? && "method" in msg.fields && "id" in msg.fields
    ensures a.extra != NoExtra ==>
              a.methodName in {VString("get_schain_network_info"), VString("get_runtime_params"), VString("get_last_transfer_errors")}
    ensures msg.Message? && "method" in msg.fields && "id" in msg.fields ==>
              (msg.fields["method"] == VString("get_schain_network_info") ==> a.extra == SChainNetworkInfo(st.networkInfo))
              && (msg.fields["method"] == VString("get_runtime_params") ==> a.extra == RuntimeParams(RuntimeParamsOf(st.runtime)))
              && (msg.fields["method"] == VString("get_last_transfer_errors") ==> a.extra == LastTransferErrors(st.lastTransferErrors))
    ensures a.methodName !in {VString("get_schain_network_info"), VString("get_runtime_params"), VString("get_last_transfer_errors")} ==>
              a.extra == NoExtra
    ensures a.extra.SChainNetworkInfo? ==> a.methodName == VString("get_schain_network_info")
    ensures a.extra.RuntimeParams? ==> a.methodName == VString("get_runtime_params")
    ensures a.extra.LastTransferErrors? ==> a.methodName == VString("get_last_transfer_errors")
    ensures a.extra.SChainNetworkInfo? ==> a.extra.info == st.networkInfo
    ensures a.extra.LastTransferErrors? ==> a.extra.errors == st.lastTransferErrors
    ensures a.extra.RuntimeParams? ==>
              forall name :: name in a.extra.params <==> name in RuntimeParamNames && name in st.runtime
    ensures a.extra.RuntimeParams? ==>
              forall name :: name in a.extra.params ==> a.extra.params[name] == st.runtime[name]
  {
    match msg
    case Malformed => Answer(VNull, VNull, VNull, NoExtra)
    case Message(fields) =>
      if "method" !in fields then Answer(VNull, VNull, VNull, NoExtra)
      else if "id" !in fields then Answer(fields["method"], VNull, VNull, NoExtra)
      else Answer(fields["method"], fields["id"], VNull, ExtraFor(fields["method"], st))
  }

  /**
    An unknown method name gets the same answer as `ping` apart from the echoed
    name: the handler's exception leaves no trace in the answer.
   */
  lemma UnknownMethodAnsweredLikePing(fields: map<string, Value>, st: MonitorState)
    requires "method" in fields && "id" in fields
    requires fields["method"] !in {VString("echo"), VString("ping"), VString("get_schain_network_info"),
                                   VString("get_runtime_params"), VString("get_last_transfer_errors")}
    ensures Dispatch(Message(fields), st) ==
            Dispatch(Message(fields["method" := VString("ping")]), st).(methodName := fields["method"])
  {
  }
}
