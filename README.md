# OTA mode classifier of blk-reconnect

`blk-reconnect.py` drives a Silicon Labs peripheral back and forth between its
application image and its Gecko bootloader (the Bluetooth OTA "DFU mode" of UG489
and AN1086), reconnecting after every reboot. On each connection it inspects the
freshly enumerated GATT service table to decide which mode the device is in and
which OTA control characteristic to write the mode-transition command to. The
service table may hold stale cached duplicates of the OTA service with other
handles, so the control characteristic is taken from the first OTA service entry
whose contents agree with the mode being assumed.

This project models that decision and proves its properties:

- `ota_protocol.dfy` (module `OtaProtocol`): the OTA service and characteristic
  UUIDs as 128-bit values and the command bytes START `[0]`, FINISH `[3]`,
  DISCONNECT `[4]`.
- `gatt.dfy` (module `Gatt`): the service table as a sequence of services, each
  with a UUID, a handle and an ordered sequence of characteristics (UUID and
  opaque handle), and the reference predicates the proofs use.
- `classifier.dfy` (module `Classifier`): `is_dfu_mode` as the recursive function
  `IsDfuMode`, the OTA-service comprehension as `OtaServices`, and
  `get_control_handle` as the method `GetControlHandle`. That method keeps the
  source's loops over services and characteristics. It is proved equal to the
  functional specification `SelectControl`: the last control characteristic of
  the first qualifying OTA entry.
- `reconnect_cycle.dfy` (module `ReconnectCycle`): the decision part of one pass
  of the reconnect loop. It fails with `ServiceNotFound` when there is no OTA
  service. Otherwise it yields (DISCONNECT, expected OTA = true) in DFU mode and
  (START, false) otherwise, together with the handle looked up for that mode.
- `scenarios.dfy` (module `Scenarios`): concrete tables, including a stale
  duplicate entry, and the decision taken on each.

Mode detection never fails by itself: `is_dfu_mode` returns false on a table
without the OTA service, and the cycle raises `ServiceNotFound` from its own
emptiness test (blk-reconnect.py:123-124).

UUIDs are compared by value. The source compares the UUID string that bleak
reports for a service or characteristic with `str(uuid.UUID(...))`, the canonical
lower-case form of the constant; the two relations agree because bleak reports
128-bit UUIDs in that same canonical lower-case form.

The test `if plausible` is modelled as "a characteristic is held" (`Some?`): a characteristic object is
always truthy.

## Model

| member | source | states |
|---|---|---|
| `Classifier.ContainsUuid` | blk-reconnect.py:86-88 | the scan over a characteristic list finds type `u` iff some characteristic of the list has type `u` |
| `Classifier.IsDfuMode` | blk-reconnect.py:77-89 | true iff some service entry with the OTA service UUID lists a characteristic with the data UUID |
| `Classifier.NonOtaServiceIgnored` | blk-reconnect.py:84-87 | inserting a non-OTA service anywhere in the table, whatever it lists (a data characteristic included), never changes the mode |
| `Classifier.IsDfuModeOfOtaServices` | blk-reconnect.py:84-89 | the mode computed on the OTA entries alone equals the mode computed on the whole table |
| `Classifier.OtaServices` | blk-reconnect.py:120 | the filtered list is no longer than the table, holds only OTA entries, holds every OTA entry of the table and nothing else, and is empty iff the table has no OTA entry |
| `Classifier.LastControlSpec` | blk-reconnect.py:102-104 | the characteristic kept after scanning a list exists iff the list has a control characteristic, and it is the last control characteristic of the list |
| `Classifier.SelectControlSpec` | blk-reconnect.py:98-111 | the lookup returns None iff no OTA entry has a control characteristic and data presence equal to `expected_ota`; otherwise it returns what the first such entry keeps |
| `Classifier.ScanService` | blk-reconnect.py:100-106 | the inner loop leaves the last control characteristic of an OTA entry (nothing for other services) and the flag "the OTA entry lists a data characteristic" |
| `Classifier.GetControlHandle` | blk-reconnect.py:91-111 | the loop with its per-entry reset returns exactly `SelectControl(svcs, expected_ota)` |
| `Classifier.SelectedControlIsLast` | blk-reconnect.py:100-108 | a returned characteristic has the control UUID; it is the last control characteristic of an OTA entry whose data presence equals `expected_ota`; that entry is the first qualifying one in table order |
| `Classifier.NonQualifyingPrefixSkipped` | blk-reconnect.py:107-110 | entries before the first qualifying one (stale duplicates of the wrong mode, or entries without a control characteristic) do not change the answer |
| `ReconnectCycle.Decide` | blk-reconnect.py:117-144 | the cycle fails iff the table has no OTA entry; otherwise the command is DISCONNECT iff some OTA entry lists the data characteristic, START iff none does, and the lookup expects OTA mode exactly in the first case |
| `ReconnectCycle.Cycle` | blk-reconnect.py:117-144 | the loop body (filter, fail on no OTA entry, detect the mode, look up the handle) computes the decision `Decide` |
| `ReconnectCycle.HandleAgreesWithMode` | blk-reconnect.py:129-143 | a handle the cycle writes to has the control UUID and lies in an OTA entry whose data presence agrees with the detected mode |
| `ReconnectCycle.DfuModeHandleFound` | blk-reconnect.py:129-133 | in DFU mode a handle is found iff some OTA entry lists both a data and a control characteristic |
| `ReconnectCycle.AppModeHandleFound` | blk-reconnect.py:140-144 | in application mode a handle is found iff some OTA entry lists a control characteristic |
| `Scenarios.BootloaderSendsDisconnect` | blk-reconnect.py:129-133 | an OTA entry with control and data characteristics yields DISCONNECT to that control characteristic |
| `Scenarios.ApplicationSendsStart` | blk-reconnect.py:140-144 | an OTA entry with only a control characteristic yields START to it |
| `Scenarios.MissingOtaServiceFails` | blk-reconnect.py:120-124 | a table without the OTA service yields `ServiceNotFound`, even if it lists a data characteristic elsewhere |
| `Scenarios.StaleEntryPassedOver` | blk-reconnect.py:98-110 | with a stale application-mode OTA entry ahead of the live bootloader entry, DISCONNECT goes to the live entry's control characteristic |
| `Scenarios.NoCarryOverBetweenEntries` | blk-reconnect.py:107-110 | a control characteristic of a rejected entry is not used for a later OTA entry that lacks one |
| `Scenarios.DataOutsideOtaServiceIgnored` | blk-reconnect.py:84-87 | a data characteristic under another service leaves the device in application mode |
| `Scenarios.LaterControlWins` | blk-reconnect.py:102-104 | of two control characteristics in one entry, the later one is chosen |

## Left out

- Device discovery and the address/name filter (blk-reconnect.py:56-68): BLE scanning glue around the transport.
- The disconnect callback and event (blk-reconnect.py:70-75), the wait for it, the reconnect polling with its one-second sleep and the five-second settle delay (blk-reconnect.py:152-161): concurrency, timing and transport.
- The characteristic write and the handling of its reply (blk-reconnect.py:133, 136-139, 144, 147-150): a call into the BLE stack. The model stops at the write request, the command and handle to write. What the stack does with a missing handle is not defined by this code, so the request keeps `None`.
- The branches taken when `workaround_duplicate_charids` is false (blk-reconnect.py:134-135, 145-146): the flag is the constant true, so they never run.
- The printing of OTA handles (blk-reconnect.py:121-122) and the other diagnostics, argument parsing, logging setup and UUID name registration (blk-reconnect.py:39-52, 165-183): I/O only.
- The textual form of UUIDs: they are compared as 128-bit values, so the case and formatting of the strings play no part.
- The version characteristics (blk-reconnect.py:26-29) and FINISH (blk-reconnect.py:34) are declared as constants but take no part in the decision, as in the source.
