/**
  Writes to a USB endpoint register: STAT and DTOG bits toggle on a one, the CTR
  bits clear on a zero, SETUP is read-only and the rest is plain storage.
 */
module EndpointRegister {

  const EP_CTR_RX: bv16 := 0x8000
  const EP_DTOG_RX: bv16 := 0x4000
  const EP_STAT_RX: bv16 := 0x3000
  const EP_SETUP: bv16 := 0x0800
  const EP_TYPE: bv16 := 0x0600
  const EP_KIND: bv16 := 0x0100
  const EP_CTR_TX: bv16 := 0x0080
  const EP_DTOG_TX: bv16 := 0x0040
  const EP_STAT_TX: bv16 := 0x0030
  const EP_EA: bv16 := 0x000F

  const EP_RX_NAK: bv16 := 0x2000
  const EP_RX_VALID: bv16 := 0x3000
  const EP_TX_STALL: bv16 := 0x0010
  const EP_TX_NAK: bv16 := 0x0020
  const EP_TX_VALID: bv16 := 0x0030
  const EP_CONTROL: bv16 := 0x0200

  const TOGGLES: bv16 := EP_DTOG_RX | EP_STAT_RX | EP_DTOG_TX | EP_STAT_TX
  const CLEARS: bv16 := EP_CTR_RX | EP_CTR_TX
  const PLAIN: bv16 := EP_TYPE | EP_KIND | EP_EA

  /** What the register holds after `v` was written to it. */
  function AfterWrite(epr: bv16, v: bv16): bv16 {
    (epr & v & CLEARS) | ((epr ^ v) & TOGGLES) | (v & PLAIN) | (epr & EP_SETUP)
  }

  /** The word written to bring the STAT bits in `mask` to `status`. */
  function StatusWord(epr: bv16, status: bv16, mask: bv16): bv16 {
    (epr & (EP_CTR_RX | EP_TYPE | EP_KIND | EP_CTR_TX | EP_EA)) | ((epr ^ status) & mask)
  }

  /** The setter reaches the status from every register value and disturbs no other bit. */
  lemma SetTxStatusExact(epr: bv16, status: bv16)
    requires status & EP_STAT_TX == status
    ensures AfterWrite(epr, StatusWord(epr, status, EP_STAT_TX)) == (epr & (0xFFFF ^ EP_STAT_TX)) | status
  {
  }

  lemma SetRxStatusExact(epr: bv16, status: bv16)
    requires status & EP_STAT_RX == status
    ensures AfterWrite(epr, StatusWord(epr, status, EP_STAT_RX)) == (epr & (0xFFFF ^ EP_STAT_RX)) | status
  {
  }

  const RESET_WORD: bv16 := EP_CTR_RX | EP_CTR_TX | EP_CONTROL | EP_RX_VALID | EP_TX_NAK

  /**
    The word the bus reset handler writes toggles: it leaves reception enabled
    exactly when the controller had cleared STAT_RX, and answering NAK exactly
    when it had cleared STAT_TX.
   */
  lemma ResetWordNeedsClearedStatus(epr: bv16)
    ensures AfterWrite(epr, RESET_WORD) & EP_STAT_RX == EP_RX_VALID <==> epr & EP_STAT_RX == 0
    ensures AfterWrite(epr, RESET_WORD) & EP_STAT_TX == EP_TX_NAK <==> epr & EP_STAT_TX == 0
    ensures AfterWrite(epr, RESET_WORD) & CLEARS == epr & CLEARS
  {
  }

  datatype EpStatus = StatDisabled | StatStall | StatNak | StatValid

  /** The fields of an endpoint register that steer the handlers. */
  datatype Fields = Fields(ctrRx: bool, setup: bool, statRx: EpStatus, ctrTx: bool, statTx: EpStatus)

  function RxStatus(epr: bv16): EpStatus {
    if epr & EP_STAT_RX == EP_RX_VALID then StatValid
    else if epr & EP_STAT_RX == EP_RX_NAK then StatNak
    else if epr & EP_STAT_RX == 0 then StatDisabled
    else StatStall
  }

  function TxStatus(epr: bv16): EpStatus {
    if epr & EP_STAT_TX == EP_TX_VALID then StatValid
    else if epr & EP_STAT_TX == EP_TX_NAK then StatNak
    else if epr & EP_STAT_TX == 0 then StatDisabled
    else StatStall
  }

  function Decode(epr: bv16): Fields {
    Fields(epr & EP_CTR_RX != 0, epr & EP_SETUP != 0, RxStatus(epr), epr & EP_CTR_TX != 0, TxStatus(epr))
  }

  /** Where the fields lie in the register; a status is 0 disabled, 1 stall, 2 NAK, 3 valid. */
  lemma FieldsOfRegister(epr: bv16)
    ensures var f := Decode(epr);
      && (f.ctrRx <==> epr & 0x8000 != 0) && (f.setup <==> epr & 0x0800 != 0) && (f.ctrTx <==> epr & 0x0080 != 0)
      && (f.statRx.StatStall? <==> epr & 0x3000 == 0x1000) && (f.statTx.StatStall? <==> epr & 0x0030 == 0x0010)
      && (f.statRx.StatNak? <==> epr & 0x3000 == 0x2000) && (f.statTx.StatNak? <==> epr & 0x0030 == 0x0020)
      && (f.statRx.StatValid? <==> epr & 0x3000 == 0x3000) && (f.statTx.StatValid? <==> epr & 0x0030 == 0x0030)
  {
  }
}
