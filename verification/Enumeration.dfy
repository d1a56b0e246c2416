/** Standard requests as a host sees them: the request types, descriptors and the configuration. */
module Enumeration {
  import opened Base
  import opened Usb
  import opened Device
  import opened Runs

  /** Bits 5 and 6 of bmRequestType tell standard from class requests, bit 7 the direction. */
  lemma RequestTypes(q: Setup)
    ensures Standard(q) <==> q.requestType < 0x20 || 0x80 <= q.requestType < 0xA0
    ensures Class(q) <==> 0x20 <= q.requestType < 0x40 || 0xA0 <= q.requestType < 0xC0
    ensures ToHost(q) <==> 0x80 <= q.requestType
  {
  }

  /** What a data-in stage with `answer` has put on the wire: a prefix, and all of it once the stage has ended. */
  ghost predicate Read(u: Usb, answer: seq<byte>, ps: seq<Tx>) {
    && WellPacketed(ps) && Payload(ps) <= answer
    && (u.phase == Idle ==> Payload(ps) == answer)
  }

  /** The data stage of a standard request that the host reads: GET_DESCRIPTOR and GET_CONFIGURATION. */
  lemma StandardStage(env: Env, ss: seq<Sys>, es: seq<Event>, os: seq<Output>, i: nat)
    requires Run(env, ss, es, os) && i < |es| && es[i].SetupToken? && Standard(es[i].setup)
    requires ToHost(es[i].setup) && es[i].setup.length > 0
    ensures ss[i + 1].usb.phase == DataIn
    ensures es[i].setup.request == 6 ==>
              Body(env, ss[i], es[i].setup) == Cut(env.descriptors(es[i].setup.value), es[i].setup.length)
    ensures es[i].setup.request == 8 ==> Body(env, ss[i], es[i].setup) == [1]
  {
    assert Turned(env, ss, es, os, i);
    var r := env.descriptors(es[i].setup.value);
    assert r[..|r|] == r;
    assert [1 as byte][..1] == [1];
  }

  lemma SentIsRead(u: Usb, answer: seq<byte>, ps: seq<Tx>)
    requires SentSoFar(u, answer, ps)
    ensures Read(u, answer, ps)
  {
  }

  /**
   GET_DESCRIPTOR reads the descriptor that wValue names, cut to wLength; GET_CONFIGURATION reads the single
   byte 1: as long as no SETUP or reset intervenes, in full packets with alternating toggles from DATA1.
   */
  lemma StandardRead(env: Env, ss: seq<Sys>, es: seq<Event>, os: seq<Output>, i: nat, j: nat)
    requires Run(env, ss, es, os) && i < j <= |es| && Undisturbed(es, i + 1, j)
    requires es[i].SetupToken? && Standard(es[i].setup) && ToHost(es[i].setup) && es[i].setup.length > 0
    ensures es[i].setup.request == 6 ==>
              Read(ss[j].usb, Cut(env.descriptors(es[i].setup.value), es[i].setup.length), Armed(os, i, j))
    ensures es[i].setup.request == 8 ==> Read(ss[j].usb, [1], Armed(os, i, j))
  {
    StandardStage(env, ss, es, os, i);
    InStage(env, ss, es, os, i, j);
    SentIsRead(ss[j].usb, Body(env, ss[i], es[i].setup), Armed(os, i, j));
  }

  /** ... and the stage ends after as many IN tokens as the answer has packets. */
  lemma StandardEnds(env: Env, ss: seq<Sys>, es: seq<Event>, os: seq<Output>, i: nat, j: nat)
    requires Run(env, ss, es, os) && i < j <= |es| && Undisturbed(es, i + 1, j)
    requires es[i].SetupToken? && Standard(es[i].setup) && ToHost(es[i].setup) && es[i].setup.length > 0
    ensures es[i].setup.request == 6 && 64 * Tokens(es, i + 1, j) >= |env.descriptors(es[i].setup.value)| > 0 ==>
              ss[j].usb.phase == Idle
    ensures es[i].setup.request == 8 && Tokens(es, i + 1, j) >= 1 ==> ss[j].usb.phase == Idle
  {
    StandardStage(env, ss, es, os, i);
    if Body(env, ss[i], es[i].setup) != [] { InStageEnds(env, ss, es, os, i, j); }
  }

  /** A host that asks for enough and reads to the end gets the whole descriptor. */
  lemma WholeDescriptor(env: Env, ss: seq<Sys>, es: seq<Event>, os: seq<Output>, i: nat, j: nat, d: seq<byte>)
    requires Run(env, ss, es, os) && i < j <= |es| && Undisturbed(es, i + 1, j) && ss[j].usb.phase == Idle
    requires es[i].SetupToken? && Standard(es[i].setup) && ToHost(es[i].setup) && es[i].setup.request == 6
    requires env.descriptors(es[i].setup.value) == d && |d| <= es[i].setup.length && es[i].setup.length > 0
    ensures Payload(Armed(os, i, j)) == d
  {
    StandardRead(env, ss, es, os, i, j);
  }

  /** Other standard requests, and requests that are neither standard nor class, are answered with no data. */
  lemma Unsupported(env: Env, ss: seq<Sys>, es: seq<Event>, os: seq<Output>, i: nat)
    requires Run(env, ss, es, os) && i < |es| && es[i].SetupToken? && !Class(es[i].setup)
    requires Standard(es[i].setup) ==> es[i].setup.request != 6 && es[i].setup.request != 8
    requires ToHost(es[i].setup) && es[i].setup.length > 0
    ensures os[i] == Output(Some(Tx([], true)), None) && ss[i + 1].dfu == Settle(ss[i].dfu)
  {
    assert Turned(env, ss, es, os, i);
  }
}
