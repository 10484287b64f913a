/** The Calypso contracts scene: a heap-allocated state holding up to four
    contract records and a cursor over them, moved by Left and Right. */
module CalypsoContracts {
  import opened Word32
  import opened Input

  /** Capacity of the scene's contract buffer. */
  const MaxContracts: nat := 4

  datatype CardType = UnknownCard | Navigo | LyonTcl | Mobib | VivaViagem | Andante | Athens | GenericCard
  datatype Revision = Rev1 | Rev2 | Rev3 | Rev3Light
  datatype SecurityLevel = SecurityNone | SecurityDes | Security3Des | SecurityAes128

  /** Identity of a detected card. */
  datatype CalypsoCard = CalypsoCard(
    uid: seq<u8>,
    atr: seq<u8>,
    atrLen: u8,
    cardNumber: u32,
    cardType: CardType,
    revision: Revision,
    security: SecurityLevel,
    authenticated: bool)

  /** One subscription or ticket record; dates are three packed bytes. */
  datatype CalypsoContract = CalypsoContract(
    contractNumber: u8,
    tariffCode: u8,
    profileNumber: u16,
    validityStart: seq<u8>,
    validityEnd: seq<u8>,
    tripCounter: u16,
    minutesRemaining: u16,
    zones: seq<u8>,
    isActive: bool)

  function Zeros(n: nat): (z: seq<u8>)
    ensures |z| == n && forall i :: 0 <= i < n ==> z[i] == 0
  {
    seq(n, _ => 0)
  }

  /** A zero-filled card record. */
  function ZeroCard(): CalypsoCard {
    CalypsoCard(Zeros(4), Zeros(32), 0, 0, UnknownCard, Rev1, SecurityNone, false)
  }

  /** A zero-filled contract record. */
  function ZeroContract(): CalypsoContract {
    CalypsoContract(0, 0, 0, Zeros(3), Zeros(3), 0, 0, Zeros(8), false)
  }

  // ---------------------------------------------------------------------
  // Status line chosen on entry

  const SwitchHint: string := "\U{25C0}/\U{25B6} Switch, Back to exit"
  const ExitHint: string := "Back to exit"

  /** The navigation hint is offered exactly when there is more than one
      contract to switch between. */
  function StatusLine(count: u32): (t: string)
    ensures t == SwitchHint <==> count > 1
    ensures t == ExitHint <==> count <= 1
  {
    if count > 1 then SwitchHint else ExitHint
  }

  // ---------------------------------------------------------------------
  // The cursor and its moves

  datatype Cursor = Cursor(count: u32, index: u32)

  /** Left: one step back, unless already at the first contract. */
  function MoveLeft(c: Cursor): (r: Cursor)
    ensures r.count == c.count
    ensures c.index > 0 ==> r.index + 1 == c.index
    ensures c.index == 0 ==> r == c
  {
    if c.index > 0 then c.(index := c.index - 1) else c
  }

  /** The guard of a Right move, with `count - 1` computed on `uint32_t`. */
  predicate RightAllowed(c: Cursor) {
    c.index < Sub(c.count, 1)
  }

  /** Right: one step forward when the guard allows it. */
  function MoveRight(c: Cursor): (r: Cursor)
    ensures r.count == c.count
    ensures c.count >= 1 ==> r.index == if c.index + 1 < c.count then c.index + 1 else c.index
    ensures c.count == 0 ==> r.index == if c.index < U32 - 1 then c.index + 1 else c.index
  {
    if RightAllowed(c) then c.(index := c.index + 1) else c
  }

  /** The cursor after one input event: only short Left and Right move it. */
  function Navigate(c: Cursor, ev: InputEvent): Cursor {
    if ev.kind != Short then c
    else if ev.key == Left then MoveLeft(c)
    else if ev.key == Right then MoveRight(c)
    else c
  }

  function NavigateAll(c: Cursor, evs: seq<InputEvent>): Cursor
    decreases |evs|
  {
    if evs == [] then c else NavigateAll(Navigate(c, evs[0]), evs[1..])
  }

  /** With at least one contract, no sequence of inputs moves the cursor off
      the contracts. */
  lemma CursorStaysOnContracts(c: Cursor, evs: seq<InputEvent>)
    requires c.index < c.count
    ensures NavigateAll(c, evs).count == c.count
    ensures NavigateAll(c, evs).index < c.count
  {
    DrawGuardKept(c, evs);
  }

  /** With no contracts `count - 1` wraps to 0xFFFFFFFF, so each Right press
      advances the cursor: after `n` presses from the first slot it stands at
      `n`, beyond every contract. */
  lemma {:induction false} EmptyRightDrifts(n: nat)
    requires n < U32
    ensures NavigateAll(Cursor(0, 0), seq(n, _ => InputEvent(Short, Right))) == Cursor(0, n)
  {
    if n > 0 {
      var rights := seq(n, _ => InputEvent(Short, Right));
      var fewer := seq(n - 1, _ => InputEvent(Short, Right));
      EmptyRightDrifts(n - 1);
      RightsThenRight(Cursor(0, 0), fewer);
      assert rights == fewer + [InputEvent(Short, Right)];
    }
  }

  lemma {:induction false} RightsThenRight(c: Cursor, evs: seq<InputEvent>)
    ensures NavigateAll(c, evs + [InputEvent(Short, Right)])
      == Navigate(NavigateAll(c, evs), InputEvent(Short, Right))
    decreases |evs|
  {
    if evs != [] {
      assert (evs + [InputEvent(Short, Right)])[1..] == evs[1..] + [InputEvent(Short, Right)];
      RightsThenRight(Navigate(c, evs[0]), evs[1..]);
    }
  }

  /** What the draw callback relies on holds for every count, the empty one
      included: either there are no contracts or the cursor is on one. */
  lemma {:induction false} DrawGuardKept(c: Cursor, evs: seq<InputEvent>)
    requires c.count == 0 || c.index < c.count
    ensures NavigateAll(c, evs).count == c.count
    ensures c.count == 0 || NavigateAll(c, evs).index < c.count
    decreases |evs|
  {
    if evs != [] {
      DrawGuardKept(Navigate(c, evs[0]), evs[1..]);
    }
  }

  // ---------------------------------------------------------------------
  // What the draw callback shows

  /** A packed date as shown: its three bytes in reverse order. */
  function ShownDate(d: seq<u8>): (r: seq<u8>)
    requires |d| == 3
    ensures |r| == 3
    ensures forall i :: 0 <= i < 3 ==> r[i] == d[2 - i]
  {
    [d[2], d[1], d[0]]
  }

  datatype ContractsView =
    | NoContracts
    | Detail(
        active: bool,
        contractNumber: u8,
        activity: string,
        validFrom: seq<u8>,
        validUntil: seq<u8>,
        selector: Option<(nat, nat)>,
        statusBar: string)

  // ---------------------------------------------------------------------
  // The scene's heap state

  class ContractsScene {
    var card: CalypsoCard
    var contracts: array<CalypsoContract>
    var contractCount: u32
    var selectedIndex: u32
    var statusText: string

    /** The buffer holds four records with three-byte dates, and the cursor
        is on a contract whenever there is one. */
    ghost predicate Valid()
      reads this, contracts
    {
      && contracts.Length == MaxContracts
      && contractCount <= MaxContracts
      && (contractCount > 0 ==> selectedIndex < contractCount)
      && forall i :: 0 <= i < contracts.Length ==>
           |contracts[i].validityStart| == 3 && |contracts[i].validityEnd| == 3
    }

    function CursorOf(): Cursor
      reads this
    {
      Cursor(contractCount, selectedIndex)
    }

    /** Scene entry: a zero-filled state. The contract read is not performed,
        so the count stays zero and the exit-only hint is chosen. */
    constructor Enter()
      ensures Valid() && fresh(contracts)
      ensures card == ZeroCard()
      ensures forall i :: 0 <= i < contracts.Length ==> contracts[i] == ZeroContract()
      ensures contractCount == 0 && selectedIndex == 0
      ensures statusText == StatusLine(contractCount) == ExitHint
    {
      card := ZeroCard();
      contracts := new CalypsoContract[MaxContracts](_ => ZeroContract());
      contractCount := 0;
      selectedIndex := 0;
      new;
      statusText := StatusLine(contractCount);
    }

    /** The input callback. `previousScene` says that it asked the scene
        manager to go back; `consumed` is its return value. */
    method HandleInput(ev: InputEvent) returns (consumed: bool, previousScene: bool)
      requires Valid()
      modifies this
      ensures Valid()
      ensures CursorOf() == Navigate(old(CursorOf()), ev)
      ensures card == old(card) && contracts == old(contracts) && statusText == old(statusText)
      ensures previousScene <==> ev.kind == Short && ev.key == Back
      ensures consumed <==> (
        && ev.kind == Short
        && (|| ev.key == Back
            || (ev.key == Left && old(selectedIndex) > 0)
            || (ev.key == Right && RightAllowed(old(CursorOf())))))
    {
      consumed, previousScene := false, false;
      if ev.kind == Short {
        if ev.key == Back {
          return true, true;
        }
        if ev.key == Left && selectedIndex > 0 {
          selectedIndex := selectedIndex - 1;
          return true, false;
        }
        if ev.key == Right && selectedIndex < Sub(contractCount, 1) {
          selectedIndex := selectedIndex + 1;
          return true, false;
        }
      }
    }

    /** The draw callback: nothing is indexed without a contract; otherwise
        the selected record is shown, and the selector only when there is a
        choice. */
    function Draw(): (v: ContractsView)
      reads this, contracts
      requires Valid()
      ensures v.NoContracts? <==> contractCount == 0
      ensures v.Detail? ==>
        && v.contractNumber == contracts[selectedIndex].contractNumber
        && v.active == contracts[selectedIndex].isActive
        && v.activity == (if v.active then "Active" else "Inactive")
        && v.validFrom == ShownDate(contracts[selectedIndex].validityStart)
        && v.validUntil == ShownDate(contracts[selectedIndex].validityEnd)
        && v.statusBar == statusText
      ensures v.Detail? ==> (v.selector.Some? <==> contractCount > 1)
      ensures v.Detail? && v.selector.Some? ==>
        && v.selector.value == (selectedIndex as nat + 1, contractCount as nat)
        && 1 <= v.selector.value.0 <= contractCount
    {
      if contractCount == 0 then NoContracts
      else
        var c := contracts[selectedIndex];
        Detail(
          c.isActive,
          c.contractNumber,
          if c.isActive then "Active" else "Inactive",
          ShownDate(c.validityStart),
          ShownDate(c.validityEnd),
          if contractCount > 1 then Some((selectedIndex + 1, contractCount as nat)) else None,
          statusText)
    }
  }
}
