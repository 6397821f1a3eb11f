/** The decision and list logic of the console's fast-connect dialog
    (console::FastConnectDialog): classifying the entered text as a host ID
    or an address, refusing an ID when no router is configured, the
    most-recently-used address history capped at 15 entries, the session
    type that enables the session-config button, and the session-type
    default applied when the saved state is read.

    The widgets are reduced to their contents: `addressItems` is the list of
    the address combo box, `sessionTypeIndex` the current index of the
    session-type combo box. */
module Console {
  import opened Optional

  // proto::SessionType. The enum is declared in the protocol definition,
  // which is not part of this model; the proofs use only that the values
  // are distinct and that UNKNOWN is 0.
  const SESSION_TYPE_UNKNOWN: int := 0
  const SESSION_TYPE_DESKTOP_MANAGE: int := 1
  const SESSION_TYPE_DESKTOP_VIEW: int := 2
  const SESSION_TYPE_FILE_TRANSFER: int := 4

  /** The most entries the saved address history keeps. */
  const HISTORY_LIMIT: nat := 15

  /** The data of the session-type combo box's items, in the order the
      constructor adds them. */
  const SESSION_TYPE_ITEMS: seq<int> :=
    [SESSION_TYPE_DESKTOP_MANAGE, SESSION_TYPE_DESKTOP_VIEW, SESSION_TYPE_FILE_TRANSFER]

  /** itemData(index).toInt(): an index without an item gives an invalid
      QVariant, which converts to 0. */
  function SessionTypeAt(index: int): (t: int)
    ensures t == SESSION_TYPE_UNKNOWN <==> !(0 <= index < |SESSION_TYPE_ITEMS|)
    ensures 0 <= index < |SESSION_TYPE_ITEMS| ==> IndexOf(SESSION_TYPE_ITEMS, t) == index
  {
    if 0 <= index < |SESSION_TYPE_ITEMS| then SESSION_TYPE_ITEMS[index] else SESSION_TYPE_UNKNOWN
  }

  function Min(a: int, b: int): int
  {
    if a <= b then a else b
  }

  // ---------------------------------------------------------------------
  // Host ID or address

  predicate IsDigit(c: char)
  {
    '0' <= c <= '9'
  }

  /** The entered text names a host ID when every character is a digit;
      the empty text therefore counts as an ID. */
  predicate IsHostId(text: string)
  {
    forall i | 0 <= i < |text| :: IsDigit(text[i])
  }

  /** The scan of onButtonBoxClicked: start from "ID entered" and clear the
      flag at the first character that is not a digit. */
  method ScanHostId(text: string) returns (hostIdEntered: bool)
    ensures hostIdEntered <==> IsHostId(text)
    ensures text == [] ==> hostIdEntered
  {
    hostIdEntered := true;
    var i := 0;
    while i < |text|
      invariant 0 <= i <= |text|
      invariant forall j | 0 <= j < i :: IsDigit(text[j])
    {
      if !IsDigit(text[i]) {
        hostIdEntered := false;
        break;
      }
      i := i + 1;
    }
  }

  // ---------------------------------------------------------------------
  // The most-recently-used address list

  /** QComboBox::findText / findData: the index of the first item equal to
      x, or -1 when there is none. */
  function IndexOf<T(==)>(items: seq<T>, x: T): (r: int)
    ensures -1 <= r < |items|
    ensures r == -1 <==> x !in items
    ensures r >= 0 ==> items[r] == x && x !in items[..r]
  {
    if items == [] then -1
    else if items[0] == x then 0
    else
      var k := IndexOf(items[1..], x);
      if k == -1 then -1
      else
        assert items[..k + 1] == [items[0]] + items[1..][..k];
        k + 1
  }

  /** The address list after an entry: its first earlier occurrence is
      removed and the entry is put in front. */
  function MruList(items: seq<string>, text: string): (r: seq<string>)
    ensures |r| == |items| + (if text in items then 0 else 1)
    ensures r[0] == text
  {
    var k := IndexOf(items, text);
    [text] + (if k == -1 then items else items[..k] + items[k + 1..])
  }

  /** The saved history: the first min(count, 15) items of the list. */
  function HistoryOf(items: seq<string>): (h: seq<string>)
    ensures h <= items && |h| <= HISTORY_LIMIT
    ensures |items| <= HISTORY_LIMIT ==> h == items
    ensures |items| > HISTORY_LIMIT ==> |h| == HISTORY_LIMIT
  {
    items[..Min(|items|, HISTORY_LIMIT)]
  }

  predicate NoDuplicates<T(==)>(s: seq<T>)
  {
    forall i, j | 0 <= i < j < |s| :: s[i] != s[j]
  }

  /** A text not in the list is just added in front; otherwise its first
      occurrence k is removed and every other item keeps its relative order. */
  lemma MruListShape(items: seq<string>, text: string)
    ensures text !in items ==> MruList(items, text) == [text] + items
    ensures forall k | 0 <= k < |items| && items[k] == text && text !in items[..k] ::
      && (forall i | 0 <= i < k :: MruList(items, text)[i + 1] == items[i])
      && (forall i | k < i < |items| :: MruList(items, text)[i] == items[i])
  {
  }

  /** The list holds the same entries as before, plus the entry when it was
      new. */
  lemma MruListElements(items: seq<string>, text: string)
    ensures multiset(MruList(items, text)) ==
      multiset(items) + (if text in items then multiset{} else multiset{text})
  {
    var k := IndexOf(items, text);
    if k != -1 {
      var front, back := items[..k], items[k + 1..];
      assert items == front + [text] + back;
      assert MruList(items, text) == [text] + (front + back);
      assert multiset(items) == multiset(front) + multiset{text} + multiset(back);
    }
  }

  /** An address list without duplicates stays without duplicates. */
  lemma MruKeepsNoDuplicates(items: seq<string>, text: string)
    requires NoDuplicates(items)
    ensures NoDuplicates(MruList(items, text))
  {
  }

  /** Entering the same text twice in a row leaves the list as after the
      first time. */
  lemma MruIdempotent(items: seq<string>, text: string)
    ensures MruList(MruList(items, text), text) == MruList(items, text)
  {
  }

  /** The saved history after an entry is non-empty, holds at most 15
      entries, starts with the entry and is the front of the list; it is the
      whole list when that has at most 15 items. */
  lemma SavedHistory(items: seq<string>, text: string)
    ensures var h := HistoryOf(MruList(items, text));
      && 1 <= |h| <= HISTORY_LIMIT
      && h[0] == text
      && h <= MruList(items, text)
      && (|MruList(items, text)| <= HISTORY_LIMIT ==> h == MruList(items, text))
  {
  }

  // ---------------------------------------------------------------------
  // Session types

  /** The stored configuration the session-config button edits. */
  datatype ConfigSlot = DesktopManageConfig | DesktopViewConfig

  /** sessionConfigButtonPressed: which configuration the button opens a
      dialog for, if any. */
  function SessionConfigTarget(sessionType: int): (slot: Option<ConfigSlot>)
    ensures slot.Some? <==>
      sessionType in SESSION_TYPE_ITEMS && sessionType != SESSION_TYPE_FILE_TRANSFER
    ensures slot == Some(DesktopManageConfig) <==> sessionType == SESSION_TYPE_DESKTOP_MANAGE
  {
    if sessionType == SESSION_TYPE_DESKTOP_MANAGE then Some(DesktopManageConfig)
    else if sessionType == SESSION_TYPE_DESKTOP_VIEW then Some(DesktopViewConfig)
    else None
  }

  /** sessionTypeChanged: the session-config button is enabled exactly for
      the session types the button has a configuration dialog for. */
  function ConfigButtonEnabled(sessionType: int): (enabled: bool)
    ensures enabled <==> SessionConfigTarget(sessionType).Some?
  {
    sessionType == SESSION_TYPE_DESKTOP_MANAGE || sessionType == SESSION_TYPE_DESKTOP_VIEW
  }

  /** The session window onButtonBoxClicked creates; a desktop window is
      given the stored configuration for its session type. */
  datatype SessionWindow = DesktopWindow(config: ConfigSlot) | FileManagerWindow

  /** The window switch of onButtonBoxClicked; None is its NOTREACHED
      default, after which the handler returns without a window. */
  function SessionWindowFor(sessionType: int): (w: Option<SessionWindow>)
    ensures w.Some? <==> sessionType in SESSION_TYPE_ITEMS
    ensures w == Some(FileManagerWindow) <==> sessionType == SESSION_TYPE_FILE_TRANSFER
  {
    if sessionType == SESSION_TYPE_DESKTOP_MANAGE then Some(DesktopWindow(DesktopManageConfig))
    else if sessionType == SESSION_TYPE_DESKTOP_VIEW then Some(DesktopWindow(DesktopViewConfig))
    else if sessionType == SESSION_TYPE_FILE_TRANSFER then Some(FileManagerWindow)
    else None
  }

  /** The config button is enabled exactly when the session opens a desktop
      window, and it edits the configuration that window is given. */
  lemma ConfigButtonMatchesWindow(sessionType: int)
    ensures ConfigButtonEnabled(sessionType) <==>
      SessionWindowFor(sessionType).Some? && SessionWindowFor(sessionType).value.DesktopWindow?
    ensures ConfigButtonEnabled(sessionType) ==>
      SessionWindowFor(sessionType) == Some(DesktopWindow(SessionConfigTarget(sessionType).value))
  {
  }

  /** Every item of the session-type combo box leads to a session window;
      only the data of a missing item (index -1) reaches the default. */
  lemma EverySessionTypeItemOpensWindow(index: int)
    ensures SessionWindowFor(SessionTypeAt(index)).Some? <==> 0 <= index < |SESSION_TYPE_ITEMS|
  {
  }

  /** readState: a stored session type of 0 (nothing saved yet) becomes
      DESKTOP_MANAGE; any other value is kept. Either way the result is
      never 0 and applying the default again changes nothing. */
  function DefaultSessionType(stored: int): (t: int)
    ensures t != SESSION_TYPE_UNKNOWN
    ensures stored != SESSION_TYPE_UNKNOWN ==> t == stored
    ensures stored == SESSION_TYPE_UNKNOWN ==> t == SESSION_TYPE_DESKTOP_MANAGE
  {
    if stored != 0 then stored else SESSION_TYPE_DESKTOP_MANAGE
  }

  // ---------------------------------------------------------------------
  // The dialog

  /** What readState reads and writeState writes (the history and the
      session type; the desktop configurations are not part of this model). */
  datatype StoredState = StoredState(history: seq<string>, sessionType: int)

  /** A host and port, as base::Address::fromString gives them for a valid
      address. */
  datatype Address = Address(host: string, port: nat)

  /** The client::Config the handler builds. The port is None when it is
      left at its default (a connection by ID). */
  datatype ClientConfig = ClientConfig(
    addressOrId: string,
    port: Option<nat>,
    sessionType: int,
    withRouter: bool)

  /** How a click on the button box ends. */
  datatype ClickOutcome =
    | Rejected                       // Cancel: reject() and close()
    | RouterNotConfigured            // an ID without a router: warning
    | InvalidAddress                 // an address that does not parse: warning
    | Connect(config: ClientConfig, window: Option<SessionWindow>)

  /** The configuration a click that passes both checks connects with. */
  function ConfigFor(text: string, hostId: bool, address: Option<Address>,
                     sessionTypeIndex: int, routerConfigured: bool): ClientConfig
    requires !hostId ==> address.Some?
  {
    if hostId then
      ClientConfig(text, None, SessionTypeAt(sessionTypeIndex), routerConfigured)
    else
      ClientConfig(address.value.host, Some(address.value.port),
                   SessionTypeAt(sessionTypeIndex), routerConfigured)
  }

  class FastConnectDialog {
    /** router_config_.has_value() */
    const routerConfigured: bool
    /** The items of the address combo box. */
    var addressItems: seq<string>
    /** state_.history */
    var history: seq<string>
    /** state_.session_type */
    var sessionType: int
    /** The current index of the session-type combo box. */
    var sessionTypeIndex: int
    var configButtonEnabled: bool
    /** The state writeState last saved. */
    var saved: StoredState

    /** readState, then fill the address combo box from the history and
        select the stored session type. `initiallyEnabled` is the config
        button's state from the form, kept when the stored type has no item. */
    constructor (stored: StoredState, routerConfigured: bool, initiallyEnabled: bool)
      ensures this.routerConfigured == routerConfigured && saved == stored
      ensures history == stored.history && addressItems == stored.history
      ensures sessionType == DefaultSessionType(stored.sessionType)
      ensures var k := IndexOf(SESSION_TYPE_ITEMS, sessionType);
        if k == -1 then sessionTypeIndex == 0 && configButtonEnabled == initiallyEnabled
        else sessionTypeIndex == k && configButtonEnabled == ConfigButtonEnabled(sessionType)
    {
      this.routerConfigured := routerConfigured;
      saved := stored;
      history := stored.history;
      sessionType := DefaultSessionType(stored.sessionType);
      addressItems := history;
      sessionTypeIndex := 0;
      configButtonEnabled := initiallyEnabled;
      new;
      var current := IndexOf(SESSION_TYPE_ITEMS, sessionType);
      if current != -1 {
        SessionTypeChanged(current);
      }
    }

    /** sessionTypeChanged, the slot of the session-type combo box's
        currentIndexChanged: `index` is the new current index; take the
        session type of that item and enable the config button for the
        desktop session types. */
    method SessionTypeChanged(index: int)
      modifies this`sessionTypeIndex, this`sessionType, this`configButtonEnabled
      ensures sessionTypeIndex == index
      ensures sessionType == SessionTypeAt(sessionTypeIndex)
      ensures configButtonEnabled <==> SessionConfigTarget(sessionType).Some?
    {
      sessionTypeIndex := index;
      sessionType := SessionTypeAt(index);
      configButtonEnabled := ConfigButtonEnabled(sessionType);
    }

    /** writeState */
    method WriteState()
      modifies this`saved
      ensures saved == StoredState(history, sessionType)
    {
      saved := StoredState(history, sessionType);
    }

    /** The clear button: once confirmed, empty the address list and the
        history and save the state; otherwise change nothing. */
    method ClearHistory(confirmed: bool)
      modifies this
      ensures confirmed ==>
        && addressItems == [] && history == [] && saved == StoredState([], sessionType)
        && sessionType == old(sessionType) && sessionTypeIndex == old(sessionTypeIndex)
        && configButtonEnabled == old(configButtonEnabled)
      ensures !confirmed ==> unchanged(this)
    {
      if confirmed {
        addressItems := [];
        history := [];
        WriteState();
      }
    }

    /** The most-recently-used update of onButtonBoxClicked: remove the
        first item equal to the entry, insert the entry at index 0, then
        clear the history and refill it with the first min(count, 15) items. */
    method RememberAddress(currentText: string)
      modifies this`addressItems, this`history
      ensures addressItems == MruList(old(addressItems), currentText)
      ensures history == HistoryOf(addressItems)
    {
      var currentIndex := IndexOf(addressItems, currentText);
      if currentIndex != -1 {
        addressItems := addressItems[..currentIndex] + addressItems[currentIndex + 1..];
      }
      addressItems := [currentText] + addressItems;

      history := [];
      for i := 0 to Min(|addressItems|, HISTORY_LIMIT)
        modifies this`history
        invariant history == addressItems[..i]
      {
        history := history + [addressItems[i]];
      }
    }

    /** onButtonBoxClicked. `currentText` is the address combo box's text;
        `parseAddress` stands for base::Address::fromString with the default
        port, None for an invalid address. Both warnings return before the
        address list or the history is touched. */
    method OnButtonBoxClicked(cancel: bool, currentText: string,
                              parseAddress: string -> Option<Address>)
      returns (outcome: ClickOutcome)
      modifies this`addressItems, this`history
      ensures outcome == Rejected <==> cancel
      ensures
        && !cancel
        && (IsHostId(currentText) ==> routerConfigured)
        && (!IsHostId(currentText) ==> parseAddress(currentText).Some?)
        ==> outcome.Connect?
      ensures !cancel && IsHostId(currentText) && !routerConfigured ==> outcome == RouterNotConfigured
      ensures !cancel && !IsHostId(currentText) && parseAddress(currentText).None? ==>
        outcome == InvalidAddress
      ensures !outcome.Connect? ==> addressItems == old(addressItems) && history == old(history)
      ensures outcome.Connect? ==>
        && addressItems == MruList(old(addressItems), currentText)
        && history == HistoryOf(addressItems)
        && outcome.config == ConfigFor(currentText, IsHostId(currentText),
             parseAddress(currentText), sessionTypeIndex, routerConfigured)
        && outcome.window == SessionWindowFor(outcome.config.sessionType)
    {
      if cancel {
        return Rejected;
      }
      var hostIdEntered := ScanHostId(currentText);
      if hostIdEntered && !routerConfigured {
        return RouterNotConfigured;
      }
      var address := None;
      if !hostIdEntered {
        address := parseAddress(currentText);
        if address.None? {
          return InvalidAddress;
        }
      }
      var config := ConfigFor(currentText, hostIdEntered, address, sessionTypeIndex, routerConfigured);
      RememberAddress(currentText);
      outcome := Connect(config, SessionWindowFor(config.sessionType));
    }
  }

  /** Choosing file transfer after a stored desktop-manage type makes the
      next click connect with file transfer and open the file manager. */
  method ChangedSessionTypeIsUsed()
  {
    var d := new FastConnectDialog(StoredState([], SESSION_TYPE_DESKTOP_MANAGE), false, false);
    d.SessionTypeChanged(2);
    assert !IsDigit("host.example"[0]);
    var outcome := d.OnButtonBoxClicked(false, "host.example",
      (t: string) => Some(Address("host.example", 8050)));
    assert outcome.config.sessionType == SESSION_TYPE_FILE_TRANSFER;
    assert outcome.window == Some(FileManagerWindow);
  }
}
