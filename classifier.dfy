/** Mode classification of a Silicon Labs OTA peripheral from its GATT table:
    whether it runs the bootloader (DFU mode), and which control characteristic
    to write, skipping stale or duplicated cached service entries. */
module Classifier {
  import opened OtaProtocol
  import opened Gatt

  /** A linear scan of a characteristic list for one of type `u`. */
  function ContainsUuid(cs: seq<Characteristic>, u: Uuid): (b: bool)
    ensures b <==> HasCharacteristic(cs, u)
  {
    if cs == [] then false
    else if cs[0].uuid == u then true
    else
      var rest := ContainsUuid(cs[1..], u);
      assert HasCharacteristic(cs, u) ==> HasCharacteristic(cs[1..], u) by {
        if HasCharacteristic(cs, u) {
          var j :| 0 <= j < |cs| && cs[j].uuid == u;
          assert cs[1..][j - 1].uuid == u;
        }
      }
      rest
  }

  /** is_dfu_mode: the table is in DFU mode when some OTA service entry carries
      the data characteristic; the data characteristic under any other service is ignored. */
  function IsDfuMode(svcs: ServiceTable): (b: bool)
    ensures b <==> HasOtaData(svcs)
  {
    if svcs == [] then false
    else if svcs[0].uuid == SVC && ContainsUuid(svcs[0].characteristics, CDATA) then true
    else
      var rest := IsDfuMode(svcs[1..]);
      assert HasOtaData(svcs) ==> HasOtaData(svcs[1..]) by {
        if HasOtaData(svcs) {
          var i :| 0 <= i < |svcs| && svcs[i].uuid == SVC && HasCharacteristic(svcs[i].characteristics, CDATA);
          assert svcs[1..][i - 1] == svcs[i];
        }
      }
      rest
  }

  /** The list comprehension selecting the OTA service entries. */
  function OtaServices(svcs: ServiceTable): (r: ServiceTable)
    ensures |r| <= |svcs|
    ensures forall k :: 0 <= k < |r| ==> r[k].uuid == SVC
    ensures forall s :: s in svcs && s.uuid == SVC ==> s in r
    ensures forall s :: s in r ==> s in svcs
    ensures r == [] <==> NoOtaService(svcs)
  {
    if svcs == [] then []
    else
      var rest := OtaServices(svcs[1..]);
      assert forall s :: s in svcs ==> s == svcs[0] || s in svcs[1..];
      if svcs[0].uuid == SVC then [svcs[0]] + rest
      else
        assert NoOtaService(svcs[1..]) ==> NoOtaService(svcs) by {
          if NoOtaService(svcs[1..]) {
            forall i | 0 <= i < |svcs| ensures svcs[i].uuid != SVC {
              if i > 0 { assert svcs[i] == svcs[1..][i - 1]; }
            }
          }
        }
        rest
  }

  /** A service entry the control lookup accepts for `expectedOta`: an OTA service that
      has a control characteristic and whose data-characteristic presence equals `expectedOta`. */
  predicate Qualifies(s: Service, expectedOta: bool) {
    s.uuid == SVC
    && HasCharacteristic(s.characteristics, CCONTROL)
    && HasCharacteristic(s.characteristics, CDATA) == expectedOta
  }

  /** Entry `i` is the first qualifying one in table order. */
  predicate IsFirstQualifying(svcs: ServiceTable, expectedOta: bool, i: int) {
    0 <= i < |svcs| && Qualifies(svcs[i], expectedOta)
    && forall k :: 0 <= k < i ==> !Qualifies(svcs[k], expectedOta)
  }

  /** The control characteristic a scan over `cs` ends up holding: the last one, since
      each control characteristic seen replaces the one before. */
  function LastControl(cs: seq<Characteristic>): Option<Characteristic>
  {
    if cs == [] then None
    else if cs[|cs| - 1].uuid == CCONTROL then Some(cs[|cs| - 1])
    else LastControl(cs[..|cs| - 1])
  }

  /** The kept control characteristic exists exactly when the list has a control
      characteristic, and it is the last one of the list. */
  lemma {:induction false} LastControlSpec(cs: seq<Characteristic>)
    ensures LastControl(cs).None? <==> !HasCharacteristic(cs, CCONTROL)
    ensures LastControl(cs).Some? ==> exists j :: IsLastWith(cs, CCONTROL, j) && LastControl(cs).value == cs[j]
  {
    if cs == [] {
    } else if cs[|cs| - 1].uuid == CCONTROL {
      assert IsLastWith(cs, CCONTROL, |cs| - 1);
    } else {
      var front := cs[..|cs| - 1];
      LastControlSpec(front);
      if HasCharacteristic(cs, CCONTROL) {
        var j :| 0 <= j < |cs| && cs[j].uuid == CCONTROL;
        assert front[j] == cs[j];
      }
      if LastControl(front).Some? {
        var j :| IsLastWith(front, CCONTROL, j) && LastControl(front).value == front[j];
        assert IsLastWith(cs, CCONTROL, j);
      }
    }
  }

  /** The functional specification of get_control_handle: the last control characteristic
      of the first qualifying OTA service entry, or None when no entry qualifies. */
  function SelectControl(svcs: ServiceTable, expectedOta: bool): Option<Characteristic>
  {
    if svcs == [] then None
    else if Qualifies(svcs[0], expectedOta) then LastControl(svcs[0].characteristics)
    else SelectControl(svcs[1..], expectedOta)
  }

  /** The lookup fails exactly when no entry qualifies; otherwise it answers with the
      kept characteristic of the first qualifying entry. */
  lemma {:induction false} SelectControlSpec(svcs: ServiceTable, expectedOta: bool)
    ensures SelectControl(svcs, expectedOta).None? <==> forall i :: 0 <= i < |svcs| ==> !Qualifies(svcs[i], expectedOta)
    ensures SelectControl(svcs, expectedOta).Some? ==>
              exists i :: IsFirstQualifying(svcs, expectedOta, i)
                          && SelectControl(svcs, expectedOta) == LastControl(svcs[i].characteristics)
  {
    if svcs == [] {
    } else if Qualifies(svcs[0], expectedOta) {
      LastControlSpec(svcs[0].characteristics);
      assert IsFirstQualifying(svcs, expectedOta, 0);
    } else {
      var tail := svcs[1..];
      SelectControlSpec(tail, expectedOta);
      if forall i :: 0 <= i < |tail| ==> !Qualifies(tail[i], expectedOta) {
        forall i | 0 <= i < |svcs| ensures !Qualifies(svcs[i], expectedOta) {
          if i > 0 { assert svcs[i] == tail[i - 1]; }
        }
      } else {
        var i :| IsFirstQualifying(tail, expectedOta, i) && SelectControl(tail, expectedOta) == LastControl(tail[i].characteristics);
        forall k | 0 <= k < i + 1 ensures !Qualifies(svcs[k], expectedOta) {
          if k > 0 { assert svcs[k] == tail[k - 1]; }
        }
        assert IsFirstQualifying(svcs, expectedOta, i + 1);
        assert tail[i] == svcs[i + 1];
      }
    }
  }

  /** One more characteristic scanned: the data-presence flag and the kept control
      characteristic over `cs[..j + 1]` follow from those over `cs[..j]`. */
  lemma ScanStep(cs: seq<Characteristic>, j: nat)
    requires j < |cs|
    ensures HasCharacteristic(cs[..j + 1], CDATA) == (HasCharacteristic(cs[..j], CDATA) || cs[j].uuid == CDATA)
    ensures LastControl(cs[..j + 1]) == if cs[j].uuid == CCONTROL then Some(cs[j]) else LastControl(cs[..j])
  {
    assert cs[..j + 1][..j] == cs[..j];
    if HasCharacteristic(cs[..j + 1], CDATA) {
      var m :| 0 <= m < j + 1 && cs[..j + 1][m].uuid == CDATA;
      if m < j { assert cs[..j][m].uuid == CDATA; }
    }
    if HasCharacteristic(cs[..j], CDATA) {
      var m :| 0 <= m < j && cs[..j][m].uuid == CDATA;
      assert cs[..j + 1][m].uuid == CDATA;
    }
    if cs[j].uuid == CDATA { assert cs[..j + 1][j].uuid == CDATA; }
  }

  /** One more service entry scanned: SelectControl over `svcs[i..]` either stops at entry `i`
      or continues with `svcs[i + 1..]`. */
  lemma SelectStep(svcs: ServiceTable, expectedOta: bool, i: nat)
    requires i < |svcs|
    ensures SelectControl(svcs[i..], expectedOta)
            == if Qualifies(svcs[i], expectedOta) then LastControl(svcs[i].characteristics)
               else SelectControl(svcs[i + 1..], expectedOta)
  {
  }

  /** The inner loop of get_control_handle over one service entry, starting with nothing
      kept: in an OTA service it keeps the latest control characteristic seen and notes
      whether a data characteristic is present; any other service leaves both untouched. */
  method ScanService(s: Service) returns (plausible: Option<Characteristic>, realOtaMode: bool)
    ensures plausible == if s.uuid == SVC then LastControl(s.characteristics) else None
    ensures realOtaMode == (s.uuid == SVC && HasCharacteristic(s.characteristics, CDATA))
  {
    plausible := None;
    realOtaMode := false;
    if s.uuid == SVC {
      var cs := s.characteristics;
      var j := 0;
      while j < |cs|
        invariant 0 <= j <= |cs|
        invariant plausible == LastControl(cs[..j])
        invariant realOtaMode == HasCharacteristic(cs[..j], CDATA)
      {
        var c := cs[j];
        ScanStep(cs, j);
        if c.uuid == CCONTROL {
          plausible := Some(c);
        }
        if c.uuid == CDATA {
          realOtaMode := true;
        }
        j := j + 1;
      }
      assert cs[..j] == cs;
    }
  }

  /** get_control_handle: scans the service entries in order and returns the control
      characteristic kept from the first entry that ends with one and whose data presence
      equals `expectedOta`; a kept characteristic is forgotten before the next entry. */
  method GetControlHandle(svcs: ServiceTable, expectedOta: bool) returns (h: Option<Characteristic>)
    ensures h == SelectControl(svcs, expectedOta)
  {
    var plausible: Option<Characteristic> := None;
    var i := 0;
    while i < |svcs|
      invariant 0 <= i <= |svcs|
      invariant plausible == None
      invariant SelectControl(svcs, expectedOta) == SelectControl(svcs[i..], expectedOta)
    {
      var realOtaMode;
      plausible, realOtaMode := ScanService(svcs[i]);
      SelectStep(svcs, expectedOta, i);
      LastControlSpec(svcs[i].characteristics);
      if plausible.Some? && realOtaMode == expectedOta {
        return plausible;
      }
      // No partial match is carried over to the next entry.
      plausible := None;
      i := i + 1;
    }
    return None;
  }

  /** What the lookup returns is a control characteristic, the last one listed in an OTA
      service entry whose data-characteristic presence equals `expectedOta`, and that entry
      is the first one in table order to qualify. */
  lemma SelectedControlIsLast(svcs: ServiceTable, expectedOta: bool, c: Characteristic)
    requires SelectControl(svcs, expectedOta) == Some(c)
    ensures c.uuid == CCONTROL
    ensures exists i, j :: IsFirstQualifying(svcs, expectedOta, i)
                           && svcs[i].uuid == SVC
                           && HasCharacteristic(svcs[i].characteristics, CDATA) == expectedOta
                           && IsLastWith(svcs[i].characteristics, CCONTROL, j)
                           && c == svcs[i].characteristics[j]
  {
    SelectControlSpec(svcs, expectedOta);
    var i :| IsFirstQualifying(svcs, expectedOta, i) && SelectControl(svcs, expectedOta) == LastControl(svcs[i].characteristics);
    LastControlSpec(svcs[i].characteristics);
    var j :| IsLastWith(svcs[i].characteristics, CCONTROL, j) && c == svcs[i].characteristics[j];
  }

  /** Entries ahead of the first qualifying one, such as stale cached duplicates whose
      data presence disagrees with `expectedOta` or that lack a control characteristic,
      do not change the answer. */
  lemma {:induction false} NonQualifyingPrefixSkipped(prefix: ServiceTable, rest: ServiceTable, expectedOta: bool)
    requires forall k :: 0 <= k < |prefix| ==> !Qualifies(prefix[k], expectedOta)
    ensures SelectControl(prefix + rest, expectedOta) == SelectControl(rest, expectedOta)
  {
    if prefix == [] {
      assert prefix + rest == rest;
    } else {
      assert (prefix + rest)[0] == prefix[0];
      assert (prefix + rest)[1..] == prefix[1..] + rest;
      NonQualifyingPrefixSkipped(prefix[1..], rest, expectedOta);
    }
  }

  /** A service that is not the OTA service never changes the mode, wherever it sits
      in the table and whatever characteristics (a data one included) it lists. */
  lemma NonOtaServiceIgnored(svcs: ServiceTable, k: nat, s: Service)
    requires k <= |svcs|
    requires s.uuid != SVC
    ensures IsDfuMode(svcs[..k] + [s] + svcs[k..]) == IsDfuMode(svcs)
  {
    var t := svcs[..k] + [s] + svcs[k..];
    InsertionKeepsOtaData(svcs, k, s, t);
    assert IsDfuMode(t) == HasOtaData(t);
  }

  /** The reference form of NonOtaServiceIgnored, on the existential definition. */
  lemma InsertionKeepsOtaData(svcs: ServiceTable, k: nat, s: Service, t: ServiceTable)
    requires k <= |svcs|
    requires s.uuid != SVC
    requires t == svcs[..k] + [s] + svcs[k..]
    ensures HasOtaData(t) == HasOtaData(svcs)
  {
    assert |t| == |svcs| + 1;
    assert forall i :: 0 <= i < k ==> t[i] == svcs[i];
    assert forall i :: k < i < |t| ==> t[i] == svcs[i - 1];
    if HasOtaData(svcs) {
      var i :| 0 <= i < |svcs| && svcs[i].uuid == SVC && HasCharacteristic(svcs[i].characteristics, CDATA);
      var i' := if i < k then i else i + 1;
      assert t[i'] == svcs[i];
    }
    if HasOtaData(t) {
      var i :| 0 <= i < |t| && t[i].uuid == SVC && HasCharacteristic(t[i].characteristics, CDATA);
      var i' := if i < k then i else i - 1;
      assert t[i] == svcs[i'];
    }
  }

  /** The mode is decided by the OTA service entries alone. */
  lemma IsDfuModeOfOtaServices(svcs: ServiceTable)
    ensures IsDfuMode(OtaServices(svcs)) == IsDfuMode(svcs)
  {
  }
}
