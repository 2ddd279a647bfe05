/** DTLS roles and the direction of the SRTP keys (libdtlssrtp/dtls_srtp.c and .h;
    section 4.2 of RFC 5764). */
module Dtls {
  import opened Wrappers
  import opened ByteStrings

  datatype ConState = Act | Pass | ActPass | HoldConn
  datatype Role = Connect | Accept

  /** A session: its state and connection type, and of the SSL object behind it the role and
      whether the handshake is finished. */
  datatype Sess = Sess(state: ConState, existing: bool, role: Role, finished: bool)

  /** Calls on a session; `done` is whether the handshake is finished when the library call
      inside returns, `fatal` whether `SSL_read` failed with SSL_ERROR_SSL. */
  datatype Call =
    | PutPacket(fatal: bool, done: bool)
    | DoHandshake(done: bool)
    | Setup
    | Reset

  function RoleFor(state: ConState): Role {
    if state == Pass then Accept else Connect
  }

  function New(state: ConState): Sess {
    Sess(state, false, RoleFor(state), false)
  }

  function After(s: Sess, call: Call): Sess {
    match call
    case PutPacket(fatal, done) =>
      var s' := if s.state == ActPass then Sess(Pass, s.existing, Accept, done) else s.(finished := done);
      if fatal then s' else s'.(existing := s'.existing || done)
    case DoHandshake(done) =>
      if s.state == Act || s.state == ActPass then s.(state := Act, finished := done) else s
    case Setup =>
      if s.finished then Sess(s.state, false, RoleFor(s.state), false) else s
    case Reset =>
      if s.finished then s.(existing := false) else s
  }

  function RunCalls(start: ConState, calls: seq<Call>): Sess {
    if calls == [] then New(start) else After(RunCalls(start, calls[..|calls| - 1]), calls[|calls| - 1])
  }

  // ----- invariants over every run

  /** The SSL role is accept exactly in state PASS, and nothing finishes in ACTPASS. */
  lemma {:induction false} RoleFollowsState(start: ConState, calls: seq<Call>)
    ensures var s := RunCalls(start, calls);
            && (s.role == Accept <==> s.state == Pass)
            && (s.finished ==> s.state != ActPass)
  {
    if calls != [] {
      RoleFollowsState(start, calls[..|calls| - 1]);
    }
  }

  /** The state only ever resolves ACTPASS, once; every other state is final. */
  lemma AfterKeepsState(s: Sess, call: Call)
    ensures s.state != ActPass ==> After(s, call).state == s.state
    ensures After(s, call).state == HoldConn <==> s.state == HoldConn
  {
  }

  lemma {:induction false} StateIsFinal(start: ConState, calls: seq<Call>, n: nat)
    requires n <= |calls|
    ensures var early, late := RunCalls(start, calls[..n]).state, RunCalls(start, calls).state;
            && (early != ActPass ==> late == early)
            && (start == HoldConn <==> late == HoldConn)
    decreases |calls|
  {
    if n == |calls| {
      assert calls[..n] == calls;
      if calls != [] {
        StateIsFinal(start, calls[..|calls| - 1], |calls| - 1);
        AfterKeepsState(RunCalls(start, calls[..|calls| - 1]), calls[|calls| - 1]);
      }
    } else {
      var before := calls[..|calls| - 1];
      assert before[..n] == calls[..n];
      StateIsFinal(start, before, n);
      AfterKeepsState(RunCalls(start, before), calls[|calls| - 1]);
    }
  }

  // ----- keys

  const KEY := 16
  const SALT := 14
  const MATERIAL := 60

  datatype KeyPtrs = KeyPtrs(localKey: Bytes, remoteKey: Bytes, localSalt: Bytes, remoteSalt: Bytes)

  /** `srtp_key_material_extract`, following its pointers. */
  function Extract(m: Bytes, ispassive: ConState): KeyPtrs
    requires |m| == MATERIAL
  {
    if ispassive == Act then KeyPtrs(m[..16], m[16..32], m[32..46], m[46..60])
    else KeyPtrs(m[16..32], m[..16], m[46..60], m[32..46])
  }

  /** Section 4.2 of RFC 5764: client key, server key, client salt, server salt; a client
      writes with the client's, a server with the server's. */
  function RfcKeys(m: Bytes, role: Role): KeyPtrs
    requires |m| == MATERIAL
  {
    var clientKey, serverKey := m[0..KEY], m[KEY..2 * KEY];
    var clientSalt, serverSalt := m[2 * KEY..2 * KEY + SALT], m[2 * KEY + SALT..2 * KEY + 2 * SALT];
    match role
    case Connect => KeyPtrs(clientKey, serverKey, clientSalt, serverSalt)
    case Accept => KeyPtrs(serverKey, clientKey, serverSalt, clientSalt)
  }

  ghost predicate RightWayRound(s: Sess) {
    forall m: Bytes :: |m| == MATERIAL ==> Extract(m, s.state) == RfcKeys(m, s.role)
  }

  /** Over every run that finished a handshake, the keys are handed out the right way round
      exactly when the session was not created as HOLDCONN, which connects like a client and
      is taken for a server. */
  lemma DirectionIffNotHeld(start: ConState, calls: seq<Call>)
    requires RunCalls(start, calls).finished
    ensures RightWayRound(RunCalls(start, calls)) <==> start != HoldConn
  {
    var s := RunCalls(start, calls);
    RoleFollowsState(start, calls);
    StateIsFinal(start, calls, |calls|);
    if start == HoldConn {
      var m: Bytes := seq(MATERIAL, i requires 0 <= i < MATERIAL => i);
      assert Extract(m, s.state).localKey[0] == 16 && RfcKeys(m, s.role).localKey[0] == 0;
    }
  }

  /** HOLDCONN does finish handshakes: one packet can do it. */
  lemma HeldCanFinish()
    ensures var s := RunCalls(HoldConn, [PutPacket(false, true)]); s.finished && s.existing && s.role == Connect
  {
    assert [PutPacket(false, true)][..0] == [];
    assert RunCalls(HoldConn, []) == New(HoldConn);
  }

  /** The two ends of one handshake, client and server, get crosswise equal keys and salts,
      which together are the whole material. */
  lemma KeysCross(startA: ConState, a: seq<Call>, startB: ConState, b: seq<Call>, m: Bytes)
    requires |m| == MATERIAL && startA != HoldConn && startB != HoldConn
    requires RunCalls(startA, a).finished && RunCalls(startB, b).finished
    requires RunCalls(startA, a).role == Connect && RunCalls(startB, b).role == Accept
    ensures var x, y := Extract(m, RunCalls(startA, a).state), Extract(m, RunCalls(startB, b).state);
            && x.localKey == y.remoteKey && x.remoteKey == y.localKey
            && x.localSalt == y.remoteSalt && x.remoteSalt == y.localSalt
            && x.localKey + x.remoteKey + x.localSalt + x.remoteSalt == m
  {
    RoleFollowsState(startA, a);
    RoleFollowsState(startB, b);
    StateIsFinal(startA, a, |a|);
    StateIsFinal(startB, b, |b|);
    assert RunCalls(startA, a).state == Act && RunCalls(startB, b).state == Pass;
    MaterialParts(m);
  }

  lemma MaterialParts(m: Bytes)
    requires |m| == MATERIAL
    ensures var x := Extract(m, Act); x.localKey + x.remoteKey + x.localSalt + x.remoteSalt == m
  {
  }

  // ----- the session object

  lemma RunPush(start: ConState, calls: seq<Call>, call: Call)
    ensures RunCalls(start, calls + [call]) == After(RunCalls(start, calls), call)
  {
    assert (calls + [call])[..|calls|] == calls;
  }

  /** The session object: each function updates it step by step.  `start` and `calls` record
      how it came about, so that what holds over every run holds of every session. */
  class DtlsSess {
    ghost const start: ConState
    ghost var calls: seq<Call>
    var state: ConState
    var existing: bool
    var role: Role
    var finished: bool

    ghost function Value(): Sess
      reads this
    {
      Sess(state, existing, role, finished)
    }

    ghost predicate Valid()
      reads this
    {
      Value() == RunCalls(start, calls)
    }

    /** The SSL role follows the state, and a finished handshake has resolved ACTPASS. */
    ghost predicate Directed()
      reads this
    {
      (role == Accept <==> state == Pass) && (finished ==> state != ActPass)
    }

    constructor (conState: ConState)
      ensures Valid() && Directed() && start == state == conState && calls == [] && !finished && !existing
    {
      state := conState;
      if conState == Pass {
        role := Accept;
      } else {
        role := Connect;
      }
      existing, finished := false, false;
      start, calls := conState, [];
    }

    /** One more call on the record: what every run keeps is kept. */
    ghost method Record(call: Call)
      requires Value() == After(RunCalls(start, calls), call)
      modifies this`calls
      ensures calls == old(calls) + [call] && Valid() && Directed()
    {
      RunPush(start, calls, call);
      calls := calls + [call];
      RoleFollowsState(start, calls);
    }

    /** `dtls_sess_put_packet`: whoever hears first is the server. */
    method PutPacket(fatal: bool, done: bool)
      requires Valid()
      modifies this
      ensures Valid() && Directed() && calls == old(calls) + [Call.PutPacket(fatal, done)]
      ensures state == if old(state) == ActPass then Pass else old(state)
      ensures finished == done && (existing <==> old(existing) || (done && !fatal))
    {
      if state == ActPass {
        state := Pass;
        role := Accept;
      }
      finished := done;
      if !fatal && finished {
        existing := true;
      }
      Record(Call.PutPacket(fatal, done));
    }

    /** `dtls_do_handshake`: whoever speaks first is the client. */
    method DoHandshake(done: bool)
      requires Valid()
      modifies this
      ensures Valid() && Directed() && calls == old(calls) + [Call.DoHandshake(done)]
      ensures state == if old(state) == ActPass then Act else old(state)
      ensures finished == (if state == Act then done else old(finished)) && existing == old(existing)
    {
      if state == Act || state == ActPass {
        if state == ActPass {
          state := Act;
        }
        finished := done;
      }
      Record(Call.DoHandshake(done));
    }

    /** `dtls_sess_setup`: a finished session starts over in the role it had. */
    method Setup()
      requires Valid()
      modifies this
      ensures Valid() && Directed() && calls == old(calls) + [Call.Setup]
      ensures state == old(state) && role == old(role) && !finished
      ensures existing == (old(existing) && !old(finished))
    {
      RoleFollowsState(start, calls);
      if finished {
        finished := false;
        if state == Pass {
          role := Accept;
        } else {
          role := Connect;
        }
        existing := false;
      }
      Record(Call.Setup);
    }

    /** `dtls_sess_reset`. */
    method Reset()
      requires Valid()
      modifies this
      ensures Valid() && Directed() && calls == old(calls) + [Call.Reset]
      ensures state == old(state) && role == old(role) && finished == old(finished)
      ensures existing == (old(existing) && !old(finished))
    {
      if finished {
        existing := false;
      }
      Record(Call.Reset);
    }

    /** `srtp_get_key_material` and `srtp_key_material_extract`: there are keys exactly after a
        finished handshake, and they are the ones of section 4.2 of RFC 5764 for the SSL role
        unless the session was created HOLDCONN, when local and remote are exchanged. */
    method KeyMaterial(material: Bytes) returns (keys: Option<KeyPtrs>)
      requires Valid() && |material| == MATERIAL
      ensures keys.Some? <==> finished
      ensures finished ==> keys.value == RfcKeys(material, if start == HoldConn then Accept else role)
      ensures start == HoldConn ==> role == Connect
    {
      RoleFollowsState(start, calls);
      StateIsFinal(start, calls, |calls|);
      if !finished {
        return None;
      }
      return Some(Extract(material, state));
    }
  }
}
