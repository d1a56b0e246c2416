/**
 The EP0 control-transfer machine (src_stage2/usb.cpp): pure specification of one polled event.
 Class `Device.Device` is the code that implements it.
 */
module Usb {
  import opened Base

  type u8 = x: int | 0 <= x < 0x100
  type u16 = x: int | 0 <= x < 0x1_0000

  /** An OUT packet: at most 64 bytes. */
  type Packet = s: seq<byte> | |s| <= 64 witness []

  /** A response; its length is held in 16 bits. */
  type Response = s: seq<byte> | |s| < 0x1_0000 witness []

  datatype Setup = Setup(requestType: u8, request: u8, value: u16, index: u16, length: u16)

  predicate Standard(q: Setup) { (q.requestType / 32) % 4 == 0 }
  predicate Class(q: Setup) { (q.requestType / 32) % 4 == 1 }
  predicate ToHost(q: Setup) { q.requestType >= 128 }

  const SET_ADDRESS: u8 := 5
  const GET_DESCRIPTOR: u8 := 6
  const GET_CONFIGURATION: u8 := 8

  predicate SetsAddress(q: Setup) { Standard(q) && q.request == SET_ADDRESS }

  /** What one poll of the interrupt flags can find. */
  datatype Event =
    | SetupToken(setup: Setup)
    | InToken(ep: nat)
    | OutToken(ep: nat, data: Packet)
    | BusReset
    | Other // SOF, suspend or nothing

  /** A packet armed for the next IN token: its data and whether it is DATA1. */
  datatype Tx = Tx(data: seq<byte>, data1: bool)

  datatype Phase = Idle | DataIn | DataOut | StatusIn

  datatype Usb = Usb(
    phase: Phase,
    response: seq<byte>, // what ctrl_data_ptr points at
    length: nat,         // ctrl_data_len
    remaining: u16,      // ctrl_data_remaining
    request: u8,         // ctrl_request
    pending: nat,        // usb_dev_addr
    devAddr: nat,        // the DEV_ADDR register
    toggle: bool,
    rx: seq<byte>)       // dfu_rx_buffer[..dfu_rx_offset]

  const POWER_UP := Usb(Idle, [], 0, 0, 0, 0, 0, true, [])

  function FirstPacket(data: seq<byte>): seq<byte> {
    if |data| > 64 then data[..64] else data
  }

  /** Arm a packet: at most 64 bytes, with the current toggle, which then flips. */
  function Send(u: Usb, data: seq<byte>): (Usb, Option<Tx>) {
    (u.(toggle := !u.toggle), Some(Tx(FirstPacket(data), u.toggle)))
  }

  /** Enter the data-in stage with the first `n` bytes of `response`. */
  function StartIn(u: Usb, response: seq<byte>, n: u16): (Usb, Option<Tx>)
    requires n <= |response|
  {
    Send(u.(phase := DataIn, response := response, length := n, remaining := n), response[..n])
  }

  /** A SETUP token whose request was answered with `response`. */
  function OnSetup(u: Usb, q: Setup, response: Response): (Usb, Option<Tx>) {
    var v := u.(request := q.request, toggle := true);
    if q.length == 0 then
      if response == [] then Send(v.(phase := StatusIn), []) else StartIn(v, response, |response|)
    else if ToHost(q) then
      StartIn(v, response, Min(|response|, q.length))
    else
      (v.(phase := DataOut, remaining := q.length, rx := []), None)
  }

  /** Holds in every reachable state: data-in reads stay inside the response, the buffer is never overrun. */
  predicate Sound(u: Usb) {
    (u.phase == DataIn ==> u.remaining <= u.length <= |u.response|) && |u.rx| <= 4096
  }

  /** The control transfer ends in its status stage; a deferred address takes effect. */
  function Complete(u: Usb): Usb {
    u.(phase := Idle, devAddr := if u.request == SET_ADDRESS then u.pending else u.devAddr)
  }

  function OnIn(u: Usb): (Usb, Option<Tx>)
    requires Sound(u)
  {
    if u.phase == DataIn && u.remaining > 0 then
      var left := u.remaining - Min(64, u.remaining);
      var v := u.(remaining := left);
      if left > 0 then Send(v, u.response[u.length - left..u.length])
      else (Complete(v), None)
    else if u.phase == StatusIn then (Complete(u), None)
    else (u, None)
  }

  /** An OUT packet in the data-out stage; the middle component is what is handed to the DFU engine. */
  function OnOut(u: Usb, p: Packet): (Usb, Option<seq<byte>>, Option<Tx>) {
    if u.phase != DataOut then (u, None, None)
    else
      var rx := if |u.rx| + |p| <= 4096 then u.rx + p else u.rx;
      var v := u.(rx := rx, remaining := (u.remaining - |p|) % 0x1_0000);
      if v.remaining == 0 || |p| < 64 then
        var (w, tx) := Send(v.(phase := Idle), []);
        (w, if u.request == 1 then Some(rx) else None, tx)
      else (v, None, None)
  }

  function OnReset(u: Usb): Usb {
    u.(phase := Idle, toggle := true, devAddr := 0)
  }
}
