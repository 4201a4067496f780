/** Constants of the Silicon Labs Gecko bootloader Bluetooth OTA protocol (UG489, AN1086):
    the OTA service and characteristic type identifiers and the control command bytes. */
module OtaProtocol {

  /** A 128-bit UUID, compared by value (the textual form and its case play no part). */
  newtype Uuid = x: int | 0 <= x < 0x1_0000_0000_0000_0000_0000_0000_0000_0000

  /** An octet written to the control characteristic. */
  newtype Byte = x: int | 0 <= x < 0x100

  /** Silicon Labs OTA service. */
  const SVC: Uuid := 0x1d14d6ee_fd63_4fa1_bfa4_8f47b42119f0
  /** OTA control characteristic: takes the mode-transition commands. */
  const CCONTROL: Uuid := 0xf7bf3564_fb6d_4e53_88a4_5e37e0326063
  /** OTA data characteristic: present only while the bootloader (DFU mode) runs. */
  const CDATA: Uuid := 0x984227f3_34fc_4045_a5d0_2c581f81a153
  const CAPPLOADER_VERSION: Uuid := 0x4f4a2368_8cca_451e_bfff_cf0e2ee23e9f
  const COTA_VERSION: Uuid := 0x4cc07bcf_0868_4b32_9dad_ba4cc41e5316
  const CGECKO_BL_VERSION: Uuid := 0x25f05c0a_e917_46e9_b2a5_aa2be1245afe
  const CAPP_VERSION: Uuid := 0x0d77cc11_4ac1_49f2_bfa9_cd96ac7a92f8

  /** Control commands. START enters the bootloader; DISCONNECT leaves it, which reboots the device. */
  const START: seq<Byte> := [0]
  const FINISH: seq<Byte> := [3]
  const DISCONNECT: seq<Byte> := [4]
}
