/**
 * The global hotkey table: registering every binding, unregistering every
 * binding, and running the action bound to a WM_HOTKEY id
 * (src/hotkey.cpp). The Win32 calls and the bound actions are recorded as
 * a trace of calls, in the order the source makes them.
 */
module Hotkey {
  import opened Wrappers

  /** The bound `std::function<void()>`, identified abstractly. */
  type Action = nat

  /** One row of the table (src/hotkey.h `Binding`). */
  datatype Binding = Binding(id: int, modifiers: nat, vk: nat, action: Action)

  /** A side-effecting call made by the table's functions. */
  datatype Call =
    | Register(id: int, modifiers: nat, vk: nat)   // RegisterHotKey(hwnd, id, modifiers, vk)
    | Unregister(id: int)                          // UnregisterHotKey(hwnd, id)
    | Run(action: Action)                          // b.action()

  const WParamLimit: nat := 0x1_0000_0000_0000_0000

  /**
   * `static_cast<int>(id)` of a 64-bit WPARAM: the low 32 bits read as a
   * two's-complement int.
   */
  function ToInt32(w: nat): (i: int)
    requires w < WParamLimit
    ensures -0x8000_0000 <= i < 0x8000_0000
    ensures (w - i) % 0x1_0000_0000 == 0
    ensures w < 0x8000_0000 ==> i == w
  {
    var low := w % 0x1_0000_0000;
    if low < 0x8000_0000 then low else low - 0x1_0000_0000
  }

  /** The position of the first binding whose id is `id`, if any. */
  function FirstMatch(bindings: seq<Binding>, id: int): (r: Option<nat>)
    ensures r.Some? ==> r.value < |bindings| && bindings[r.value].id == id
    ensures r.Some? ==> forall j :: 0 <= j < r.value ==> bindings[j].id != id
    ensures r.None? <==> forall j :: 0 <= j < |bindings| ==> bindings[j].id != id
    decreases |bindings|
  {
    if bindings == [] then None
    else if bindings[0].id == id then Some(0)
    else
      match FirstMatch(bindings[1..], id)
      case None => None
      case Some(k) => Some(k + 1)
  }

  /**
   * `dispatch` (src/hotkey.cpp:20-27): the action of the first binding with
   * the message's id runs, exactly once, and nothing else runs; with no
   * matching id nothing runs.
   */
  method Dispatch(wparam: nat, bindings: seq<Binding>) returns (calls: seq<Call>)
    requires wparam < WParamLimit
    ensures match FirstMatch(bindings, ToInt32(wparam))
            case Some(i) => calls == [Run(bindings[i].action)]
            case None => calls == []
  {
    var id := ToInt32(wparam);
    calls := [];
    var i := 0;
    while i < |bindings|
      invariant 0 <= i <= |bindings|
      invariant forall j :: 0 <= j < i ==> bindings[j].id != id
    {
      if bindings[i].id == id {
        calls := [Run(bindings[i].action)];
        return;
      }
      i := i + 1;
    }
  }

  /** The position of the first attempt, among the first n, that the OS refuses. */
  function FirstRefusal(n: nat, accepted: nat -> bool): (r: Option<nat>)
    ensures r.Some? ==> r.value < n && !accepted(r.value)
    ensures r.Some? ==> forall j :: 0 <= j < r.value ==> accepted(j)
    ensures r.None? <==> forall j :: 0 <= j < n ==> accepted(j)
  {
    if n == 0 then None
    else
      match FirstRefusal(n - 1, accepted)
      case Some(k) => Some(k)
      case None => if accepted(n - 1) then None else Some(n - 1)
  }

  /** The RegisterHotKey call made for one binding. */
  function RegisterCall(b: Binding): Call
  {
    Register(b.id, b.modifiers, b.vk)
  }

  /**
   * `register_all` (src/hotkey.cpp:5-12). `accepted(i)` is the answer the OS
   * gives to the i-th RegisterHotKey attempt. The result is true exactly when
   * every binding was accepted; the bindings are attempted in order up to and
   * including the first refusal and no further, and nothing registered
   * before a refusal is unregistered.
   */
  method RegisterAll(bindings: seq<Binding>, accepted: nat -> bool) returns (ok: bool, calls: seq<Call>)
    ensures ok <==> forall j :: 0 <= j < |bindings| ==> accepted(j)
    ensures |calls| == match FirstRefusal(|bindings|, accepted)
                       case None => |bindings|
                       case Some(k) => k + 1
    ensures |calls| <= |bindings|
    ensures forall j :: 0 <= j < |calls| ==> calls[j] == RegisterCall(bindings[j])
  {
    calls := [];
    var i := 0;
    while i < |bindings|
      invariant 0 <= i <= |bindings|
      invariant forall j :: 0 <= j < i ==> accepted(j)
      invariant |calls| == i
      invariant forall j :: 0 <= j < i ==> calls[j] == RegisterCall(bindings[j])
    {
      calls := calls + [RegisterCall(bindings[i])];
      if !accepted(i) {
        ok := false;
        return;
      }
      i := i + 1;
    }
    ok := true;
  }

  /**
   * `unregister_all` (src/hotkey.cpp:14-18): one UnregisterHotKey per
   * binding, in table order, whatever each call returns.
   */
  method UnregisterAll(bindings: seq<Binding>) returns (calls: seq<Call>)
    ensures |calls| == |bindings|
    ensures forall j :: 0 <= j < |bindings| ==> calls[j] == Unregister(bindings[j].id)
  {
    calls := [];
    for i := 0 to |bindings|
      invariant |calls| == i
      invariant forall j :: 0 <= j < i ==> calls[j] == Unregister(bindings[j].id)
    {
      calls := calls + [Unregister(bindings[i].id)];
    }
  }
}
