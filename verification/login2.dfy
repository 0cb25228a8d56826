/**
 * The device-pairing choices of the provisioning code page
 * (react-native/react/actions/login2.js) and of the existing-device screen
 * (react-native/react/login2/register/existing-device/index.js).
 *
 * A device role says whether a device is the one being added ("new") or
 * one already provisioned ("existing"), and whether it is a phone or a
 * computer. The code page mode says which half of the secret exchange the
 * device shows: a text or QR code it displays, or one it reads.
 *
 * The role and mode constants live in constants/login2, which is not part
 * of this model: they are distinct constructors here. A role read from the
 * store may be unset (null), which is None.
 */
module Login2 {
  import opened Wrappers

  datatype DeviceRole = ExistingPhone | NewPhone | ExistingComputer | NewComputer

  datatype CodePageMode = EnterText | ShowText | ShowCode | ScanCode | ShowCodeOrEnterText

  /** The provisioning device types of the provisionUi protocol. */
  datatype DeviceType = Mobile | Desktop

  predicate IsPhone(r: DeviceRole) {
    r == ExistingPhone || r == NewPhone
  }

  predicate IsExisting(r: DeviceRole) {
    r == ExistingPhone || r == ExistingComputer
  }

  /**
   * defaultModeForDeviceRoles: the mode for this device given both roles.
   * The source switches on the concatenation of the two role strings; with
   * the role constants distinct, each case is one ordered pair of roles.
   */
  function DefaultModeForDeviceRoles(mine: Option<DeviceRole>, other: Option<DeviceRole>, brokenMode: bool): (m: Option<CodePageMode>)
  {
    if mine.None? || other.None? then None
    else
      match (mine.value, other.value)
      case (ExistingComputer, NewComputer) => Some(EnterText)
      case (NewComputer, ExistingComputer) => Some(ShowText)
      case (ExistingComputer, NewPhone) => Some(ShowCode)
      case (NewPhone, ExistingComputer) => Some(ScanCode)
      case (ExistingPhone, NewComputer) => Some(ScanCode)
      case (NewComputer, ExistingPhone) => Some(ShowCodeOrEnterText)
      case (ExistingPhone, NewPhone) => Some(if brokenMode then ShowText else ShowCode)
      case (NewPhone, ExistingPhone) => Some(if brokenMode then EnterText else ScanCode)
      case _ => None
  }

  /**
   * A mode exists exactly when one device is existing and the other new;
   * the modes of the two sides of a pair are complementary: one side shows
   * what the other reads.
   */
  lemma ModeNeedsOneOfEach(mine: DeviceRole, other: DeviceRole, brokenMode: bool)
    ensures DefaultModeForDeviceRoles(Some(mine), Some(other), brokenMode).Some?
            <==> IsExisting(mine) != IsExisting(other)
    ensures DefaultModeForDeviceRoles(None, Some(other), brokenMode).None?
    ensures DefaultModeForDeviceRoles(Some(mine), None, brokenMode).None?
  {
  }

  /** Whether a mode displays something for the other device to read. */
  predicate Shows(m: CodePageMode) {
    m == ShowText || m == ShowCode || m == ShowCodeOrEnterText
  }

  /**
   * Two sides of a pairing get complementary modes: when this device
   * reads (scans or types in) the secret, the other displays it, and the
   * other way round; only the new computer paired with an existing phone
   * may do either.
   */
  lemma ModesComplement(mine: DeviceRole, other: DeviceRole, brokenMode: bool)
    requires IsExisting(mine) != IsExisting(other)
    ensures var m := DefaultModeForDeviceRoles(Some(mine), Some(other), brokenMode).value;
            var o := DefaultModeForDeviceRoles(Some(other), Some(mine), brokenMode).value;
            m != ShowCodeOrEnterText && o != ShowCodeOrEnterText ==> Shows(m) != Shows(o)
  {
  }

  /** brokenMode changes only the phone-to-phone pairings. */
  lemma BrokenModeOnlyPhones(mine: Option<DeviceRole>, other: Option<DeviceRole>)
    ensures DefaultModeForDeviceRoles(mine, other, true) != DefaultModeForDeviceRoles(mine, other, false)
            <==> mine.Some? && other.Some? && IsPhone(mine.value) && IsPhone(other.value)
                 && IsExisting(mine.value) != IsExisting(other.value)
  {
  }

  /** With both devices phones and no working camera, the modes fall back to text. */
  lemma BrokenPhonesUseText(mine: DeviceRole, other: DeviceRole)
    requires IsPhone(mine) && IsPhone(other) && IsExisting(mine) != IsExisting(other)
    ensures DefaultModeForDeviceRoles(Some(mine), Some(other), true) in {Some(ShowText), Some(EnterText)}
    ensures DefaultModeForDeviceRoles(Some(mine), Some(other), false) in {Some(ShowCode), Some(ScanCode)}
  {
  }

  /** The part of the login2 store the code page thunks read. */
  datatype CodePageStore = CodePageStore(
    mode: Option<CodePageMode>,
    qrCode: Option<string>,
    textCode: Option<string>)

  /**
   * The actions the thunks dispatch. SetQRCode carries the text code the
   * QR image is generated from; the image itself comes from the external
   * qrcode-generator library.
   */
  datatype Action =
    | SetQRCode(fromTextCode: string)
    | SetCodeMode(mode: Option<CodePageMode>)

  /**
   * generateQRCode's condition: the mode displays a code, no QR code was
   * made yet and there is a non-empty text code to make it from (an empty
   * string is falsy).
   */
  predicate WantsQRCode(store: CodePageStore) {
    && store.mode in {Some(ShowCode), Some(ShowCodeOrEnterText)}
    && (store.qrCode.None? || store.qrCode.value == "")
    && store.textCode.Some? && store.textCode.value != ""
  }

  /**
   * A Redux store seen by the thunks: the code page state and the actions
   * dispatched so far. The reducers that would fold the actions into the
   * state are not part of this model, so dispatching only records.
   */
  class Dispatcher {
    var store: CodePageStore
    var dispatched: seq<Action>

    constructor (store: CodePageStore)
      ensures this.store == store && dispatched == []
    {
      this.store := store;
      dispatched := [];
    }

    /** generateQRCode: dispatch setQRCode exactly when WantsQRCode holds. */
    method GenerateQRCode()
      modifies this
      ensures store == old(store)
      ensures WantsQRCode(store) ==> dispatched == old(dispatched) + [SetQRCode(store.textCode.value)]
      ensures !WantsQRCode(store) ==> dispatched == old(dispatched)
    {
      var goodMode := store.mode == Some(ShowCode) || store.mode == Some(ShowCodeOrEnterText);
      if goodMode && (store.qrCode.None? || store.qrCode.value == "") && store.textCode.Some? && store.textCode.value != "" {
        dispatched := dispatched + [SetQRCode(store.textCode.value)];
      }
    }

    /**
     * setCodePageMode: always run the QR check first, then dispatch
     * setCodeMode unless the store is already in the requested mode.
     */
    method SetCodePageMode(mode: Option<CodePageMode>)
      modifies this
      ensures store == old(store)
      ensures dispatched == old(dispatched) + QRStep(store) + ModeStep(store, mode)
    {
      GenerateQRCode();
      if store.mode == mode {
        return;
      }
      dispatched := dispatched + [SetCodeMode(mode)];
    }
  }

  /** What generateQRCode dispatches on a store. */
  function QRStep(store: CodePageStore): (acts: seq<Action>)
    ensures |acts| <= 1
  {
    if WantsQRCode(store) then [SetQRCode(store.textCode.value)] else []
  }

  /** What setCodePageMode dispatches after the QR check. */
  function ModeStep(store: CodePageStore, mode: Option<CodePageMode>): (acts: seq<Action>)
    ensures |acts| <= 1
  {
    if store.mode == mode then [] else [SetCodeMode(mode)]
  }

  /**
   * setCodePageMode dispatches a mode change exactly when the mode differs,
   * and that change is its last action; a QR code is requested only for a
   * displaying mode of the store, never for the mode being set.
   */
  lemma SetCodePageModeActions(store: CodePageStore, mode: Option<CodePageMode>)
    ensures var acts := QRStep(store) + ModeStep(store, mode);
            && (SetCodeMode(mode) in acts <==> store.mode != mode)
            && (store.mode != mode ==> acts[|acts| - 1] == SetCodeMode(mode))
            && (forall a :: a in acts && a.SetQRCode? ==> WantsQRCode(store) && a == SetQRCode(store.textCode.value))
            && |acts| <= 2
  {
    var acts := QRStep(store) + ModeStep(store, mode);
    if store.mode == mode {
      assert acts == QRStep(store);
    }
  }

  /**
   * The chooseDeviceType answer: the device type of the other device's
   * role, for the two existing roles the provisionee can be asked about;
   * any other role has no entry (undefined).
   */
  function ChooseDeviceType(role: Option<DeviceRole>): (t: Option<DeviceType>)
    ensures t.Some? <==> role.Some? && IsExisting(role.value)
    ensures t.Some? ==> (t.value == Mobile <==> IsPhone(role.value))
  {
    match role
    case Some(ExistingPhone) => Some(Mobile)
    case Some(ExistingComputer) => Some(Desktop)
    case _ => None
  }

  /**
   * The existing-device screen: the two roles it offers for the other
   * device, for the computer button and the phone button.
   */
  datatype Offer = Offer(computer: Option<DeviceRole>, phone: Option<DeviceRole>)

  /** The role switch of ExistingDevice.render. */
  function OfferedRoles(myRole: Option<DeviceRole>): (o: Offer)
  {
    match myRole
    case Some(ExistingPhone) | Some(ExistingComputer) => Offer(Some(NewComputer), Some(NewPhone))
    case Some(NewPhone) | Some(NewComputer) => Offer(Some(ExistingComputer), Some(ExistingPhone))
    case None => Offer(None, None)
  }

  /**
   * For a known role, the computer button offers a computer and the phone
   * button a phone, both on the other side of the pairing from this
   * device; with no role, neither button offers one.
   */
  lemma OfferedRolesOpposite(myRole: Option<DeviceRole>)
    ensures myRole.None? <==> OfferedRoles(myRole) == Offer(None, None)
    ensures myRole.Some? ==>
              var o := OfferedRoles(myRole);
              && o.computer.Some? && !IsPhone(o.computer.value) && IsExisting(o.computer.value) != IsExisting(myRole.value)
              && o.phone.Some? && IsPhone(o.phone.value) && IsExisting(o.phone.value) != IsExisting(myRole.value)
  {
  }

  /**
   * The offer is symmetric: if this device offers role r for the other,
   * a device in role r offers this device's role back.
   */
  lemma OfferedRolesSymmetric(mine: DeviceRole, other: DeviceRole)
    requires var o := OfferedRoles(Some(mine)); Some(other) in {o.computer, o.phone}
    ensures var back := OfferedRoles(Some(other)); Some(mine) in {back.computer, back.phone}
  {
  }

  /** Every pairing the screen offers has a default code page mode, for both devices. */
  lemma OfferedPairsHaveModes(mine: DeviceRole, brokenMode: bool)
    ensures var o := OfferedRoles(Some(mine));
            && DefaultModeForDeviceRoles(Some(mine), o.computer, brokenMode).Some?
            && DefaultModeForDeviceRoles(Some(mine), o.phone, brokenMode).Some?
  {
  }
}
