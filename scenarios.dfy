/** Concrete service tables and the decision a cycle takes on each. */
module Scenarios {
  import opened OtaProtocol
  import opened Gatt
  import opened Classifier
  import opened ReconnectCycle

  /** The Generic Access service, standing for any service other than the OTA one. */
  const GENERIC_ACCESS: Uuid := 0x00001800_0000_1000_8000_00805f9b34fb

  /** Bootloader table (control and data characteristics): leave the bootloader. */
  lemma BootloaderSendsDisconnect()
    ensures Decide([Service(SVC, 1, [Characteristic(CCONTROL, 3), Characteristic(CDATA, 5)])])
            == Ok(ControlWrite(DISCONNECT, true, Some(Characteristic(CCONTROL, 3))))
  {
    var cs := [Characteristic(CCONTROL, 3), Characteristic(CDATA, 5)];
    var t := [Service(SVC, 1, cs)];
    assert cs[..1] == [Characteristic(CCONTROL, 3)];
    assert cs[0].uuid == CCONTROL && cs[1].uuid == CDATA;
    assert Qualifies(t[0], true);
    assert LastControl(cs) == Some(Characteristic(CCONTROL, 3));
    assert SelectControl(t, true) == LastControl(cs);
  }

  /** Application table (control characteristic only): enter the bootloader. */
  lemma ApplicationSendsStart()
    ensures Decide([Service(SVC, 1, [Characteristic(CCONTROL, 3)])])
            == Ok(ControlWrite(START, false, Some(Characteristic(CCONTROL, 3))))
  {
  }

  /** A table without the OTA service is fatal for the cycle. */
  lemma MissingOtaServiceFails()
    ensures Decide([Service(GENERIC_ACCESS, 1, [Characteristic(CDATA, 3)])]) == Err(ServiceNotFound)
  {
  }

  /** A stale application-mode entry ahead of the live bootloader entry is passed over:
      the handle comes from the entry consistent with DFU mode, not the first OTA entry. */
  lemma StaleEntryPassedOver()
    ensures Decide([Service(SVC, 1, [Characteristic(CCONTROL, 3)]),
                    Service(SVC, 20, [Characteristic(CCONTROL, 22), Characteristic(CDATA, 24)])])
            == Ok(ControlWrite(DISCONNECT, true, Some(Characteristic(CCONTROL, 22))))
  {
    var stale := Service(SVC, 1, [Characteristic(CCONTROL, 3)]);
    var live := Service(SVC, 20, [Characteristic(CCONTROL, 22), Characteristic(CDATA, 24)]);
    var t := [stale, live];
    assert live.characteristics[1].uuid == CDATA;
    assert t[1] == live;
    assert IsDfuMode(t);
    assert !HasCharacteristic(stale.characteristics, CDATA);
    assert !Qualifies(stale, true);
    assert t[1..] == [live];
    assert live.characteristics[..1] == [Characteristic(CCONTROL, 22)];
    assert live.characteristics[0].uuid == CCONTROL;
    assert Qualifies(live, true);
    assert LastControl(live.characteristics) == Some(Characteristic(CCONTROL, 22));
    assert SelectControl(t, true) == SelectControl([live], true);
  }

  /** The control characteristic of a rejected entry is not carried over to the next
      OTA entry, which has a data characteristic but no control one. */
  lemma NoCarryOverBetweenEntries()
    ensures Decide([Service(SVC, 1, [Characteristic(CCONTROL, 3)]),
                    Service(SVC, 20, [Characteristic(CDATA, 24)])])
            == Ok(ControlWrite(DISCONNECT, true, None))
  {
    var first := Service(SVC, 1, [Characteristic(CCONTROL, 3)]);
    var second := Service(SVC, 20, [Characteristic(CDATA, 24)]);
    var t := [first, second];
    assert second.characteristics[0].uuid == CDATA;
    assert t[1] == second;
    assert IsDfuMode(t);
    assert !HasCharacteristic(first.characteristics, CDATA);
    assert !HasCharacteristic(second.characteristics, CCONTROL);
    assert t[1..] == [second];
    assert t[1..][1..] == [];
    assert !Qualifies(first, true) && !Qualifies(second, true);
    assert SelectControl(t, true) == SelectControl([second], true);
    assert SelectControl([second], true) == SelectControl([], true);
  }

  /** A data characteristic under another service does not put the table in DFU mode. */
  lemma DataOutsideOtaServiceIgnored()
    ensures Decide([Service(SVC, 1, [Characteristic(CCONTROL, 3)]),
                    Service(GENERIC_ACCESS, 40, [Characteristic(CDATA, 41)])])
            == Ok(ControlWrite(START, false, Some(Characteristic(CCONTROL, 3))))
  {
  }

  /** With two control characteristics in one entry, the later one is written to. */
  lemma LaterControlWins()
    ensures Decide([Service(SVC, 1, [Characteristic(CCONTROL, 3), Characteristic(CCONTROL, 7)])])
            == Ok(ControlWrite(START, false, Some(Characteristic(CCONTROL, 7))))
  {
  }
}
