/** The decision one reconnect cycle makes from a fresh service table: fail when the
    peripheral exposes no OTA service, otherwise pick the mode-transition command and the
    control characteristic to write it to. Transport, writes and waiting are not modelled. */
module ReconnectCycle {
  import opened OtaProtocol
  import opened Gatt
  import opened Classifier

  /** The fatal condition of a cycle: the table has no OTA service entry. */
  datatype CycleError = ServiceNotFound

  datatype Result<T> = Ok(value: T) | Err(error: CycleError)

  /** The write a cycle issues: the command bytes, the mode the handle lookup expected,
      and the handle found for it (None when no service entry agreed with that mode). */
  datatype ControlWrite = ControlWrite(command: seq<Byte>, expectedOta: bool, handle: Option<Characteristic>)

  /** The functional specification of one cycle's decision. */
  function Decide(svcs: ServiceTable): (r: Result<ControlWrite>)
    ensures r.Err? <==> NoOtaService(svcs)
    ensures r.Ok? ==> (r.value.command == DISCONNECT <==> HasOtaData(svcs))
    ensures r.Ok? ==> (r.value.command == START <==> !HasOtaData(svcs))
    ensures r.Ok? ==> r.value.expectedOta == HasOtaData(svcs)
  {
    var otaServices := OtaServices(svcs);
    if |otaServices| < 1 then Err(ServiceNotFound)
    else if IsDfuMode(svcs) then Ok(ControlWrite(DISCONNECT, true, SelectControl(svcs, true)))
    else Ok(ControlWrite(START, false, SelectControl(svcs, false)))
  }

  /** The decision part of one pass of the reconnect loop, as the loop runs it. */
  method Cycle(svcs: ServiceTable) returns (r: Result<ControlWrite>)
    ensures r == Decide(svcs)
  {
    var otaServices := OtaServices(svcs);
    if |otaServices| < 1 {
      return Err(ServiceNotFound);
    }
    if IsDfuMode(svcs) {
      var handle := GetControlHandle(svcs, true);
      r := Ok(ControlWrite(DISCONNECT, true, handle));
    } else {
      var handle := GetControlHandle(svcs, false);
      r := Ok(ControlWrite(START, false, handle));
    }
  }

  /** A handle the cycle writes to is a control characteristic taken from an OTA service
      entry whose data-characteristic presence agrees with the detected mode. */
  lemma HandleAgreesWithMode(svcs: ServiceTable, c: Characteristic)
    requires Decide(svcs).Ok? && Decide(svcs).value.handle == Some(c)
    ensures c.uuid == CCONTROL
    ensures exists i :: 0 <= i < |svcs| && svcs[i].uuid == SVC
                        && c in svcs[i].characteristics
                        && HasCharacteristic(svcs[i].characteristics, CDATA) == IsDfuMode(svcs)
  {
    var e := IsDfuMode(svcs);
    SelectedControlIsLast(svcs, e, c);
    var i, j :| IsFirstQualifying(svcs, e, i) && svcs[i].uuid == SVC
                && HasCharacteristic(svcs[i].characteristics, CDATA) == e
                && IsLastWith(svcs[i].characteristics, CCONTROL, j)
                && c == svcs[i].characteristics[j];
    assert c in svcs[i].characteristics;
  }

  /** In DFU mode a handle is found exactly when some OTA service entry lists both a data
      and a control characteristic. */
  lemma DfuModeHandleFound(svcs: ServiceTable)
    requires Decide(svcs).Ok? && HasOtaData(svcs)
    ensures Decide(svcs).value.handle.Some? <==>
            exists i :: 0 <= i < |svcs| && svcs[i].uuid == SVC
                        && HasCharacteristic(svcs[i].characteristics, CDATA)
                        && HasCharacteristic(svcs[i].characteristics, CCONTROL)
  {
    SelectControlSpec(svcs, true);
  }

  /** In application mode no OTA entry lists a data characteristic, so a handle is found
      exactly when some OTA service entry lists a control characteristic. */
  lemma AppModeHandleFound(svcs: ServiceTable)
    requires Decide(svcs).Ok? && !HasOtaData(svcs)
    ensures Decide(svcs).value.handle.Some? <==>
            exists i :: 0 <= i < |svcs| && svcs[i].uuid == SVC
                        && HasCharacteristic(svcs[i].characteristics, CCONTROL)
  {
    SelectControlSpec(svcs, false);
  }
}
