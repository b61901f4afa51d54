/** The KBoot session the command-line tool drives. The transport and the
    bootloader protocol are not modelled: every request is recorded as an
    event in the session's trace, carrying the status the device answered
    with, which callers choose. */
module Device {
  import opened Format

  /** The status a bootloader command answers with. */
  datatype Status = Success | Failure(code: nat)

  /** One request to the device, in the order the tool issues them. */
  datatype Event =
    | Connect(device: nat)
    | Disconnect
    | GetMcuInfo
    | FlashEraseAll(status: Status)
    | FlashEraseAllUnsecure(status: Status)
    | FlashEraseRegion(address: nat, length: nat, status: Status)
    | WriteMemory(address: nat, data: seq<Byte>, status: Status)
    | ReadMemory(address: nat, length: nat, status: Status)
    | FlashSecurityDisable(key: seq<char>, status: Status)
    | FillMemory(address: nat, length: nat, pattern: nat, status: Status)
    | Reset(status: Status)

  /** Whether a session is open after `events`, starting from `open`:
      `connect` opens it, `disconnect` closes it, requests leave it. */
  function SessionOpen(open: bool, events: seq<Event>): bool {
    if events == [] then open
    else
      match events[|events| - 1]
      case Connect(_) => true
      case Disconnect => false
      case _ => SessionOpen(open, events[..|events| - 1])
  }

  /** Running two stretches of requests one after the other: the second
      starts from the state the first leaves. */
  lemma {:induction false} SessionOpenAppend(open: bool, first: seq<Event>, second: seq<Event>)
    ensures SessionOpen(open, first + second) == SessionOpen(SessionOpen(open, first), second)
    decreases |second|
  {
    if second == [] {
      assert first + second == first;
    } else {
      var last := |second| - 1;
      assert (first + second)[..|first + second| - 1] == first + second[..last];
      SessionOpenAppend(open, first, second[..last]);
    }
  }

  /** Requests other than `connect` and `disconnect` leave the session as it
      was. */
  lemma {:induction false} RequestsKeepSession(open: bool, events: seq<Event>)
    requires forall i :: 0 <= i < |events| ==> !events[i].Connect? && !events[i].Disconnect?
    ensures SessionOpen(open, events) == open
    decreases |events|
  {
    if events != [] {
      RequestsKeepSession(open, events[..|events| - 1]);
    }
  }

  /** The global `kboot` object: whether a device is connected, and every
      request made so far. */
  class KBoot {
    var connected: bool
    var trace: seq<Event>

    /** The flag is what the trace says. */
    ghost predicate Valid()
      reads this
    {
      connected == SessionOpen(false, trace)
    }

    /** `KBoot()`: nothing connected, nothing requested. */
    constructor ()
      ensures Valid() && !connected && trace == []
    {
      connected := false;
      trace := [];
    }

    method Connect(device: nat)
      requires Valid()
      modifies this
      ensures Valid() && connected
      ensures trace == old(trace) + [Event.Connect(device)]
    {
      connected := true;
      trace := trace + [Event.Connect(device)];
    }

    method Disconnect()
      requires Valid()
      modifies this
      ensures Valid() && !connected
      ensures trace == old(trace) + [Event.Disconnect]
    {
      connected := false;
      trace := trace + [Event.Disconnect];
    }

    /** Records a request and hands back the status the device gave. */
    method Request(event: Event) returns (status: Status)
      requires Valid()
      requires !event.Connect? && !event.Disconnect? && !event.GetMcuInfo?
      modifies this
      ensures Valid() && connected == old(connected)
      ensures trace == old(trace) + [event]
      ensures status == event.status
    {
      trace := trace + [event];
      SessionOpenAppend(false, old(trace), [event]);
      status := event.status;
    }

    /** `get_mcu_info()`: the property table is the caller's choice. */
    method GetMcuInfo()
      requires Valid()
      modifies this
      ensures Valid() && connected == old(connected)
      ensures trace == old(trace) + [Event.GetMcuInfo]
    {
      trace := trace + [Event.GetMcuInfo];
      SessionOpenAppend(false, old(trace), [Event.GetMcuInfo]);
    }
  }
}
