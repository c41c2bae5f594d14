/** The pairing machine: the transport's armed code and proposal (qr_network.rs), the service's
    held proposal and its confirmation (service.rs), and connections acting on what they read.

    A connection reads the armed code, later reads the peer table, and later still posts its
    proposal. The three reads are separate steps, so each acts on a snapshot that may be stale.
    Random identifiers, the outcome of the handshake and whether the store's file could be written
    are inputs. */
module Pairing {
  import opened Common
  import opened DeviceStore
  import opened Text

  datatype Bootstrap = Bootstrap(sessionId: nat, purpose: string)

  datatype Proposal = Proposal(
    attemptId: nat,
    deviceId: string,
    deviceName: string,
    identity: seq<byte>,
    credentialId: string,
    publicKey: seq<byte>,
    purpose: string,
    verificationCode: string)

  datatype Enrolment = Enrolment(deviceName: string, credentialId: string, publicKey: seq<byte>, purpose: string)

  /** What the connection heard when it tried to read an enrolment. */
  datatype Heard = Broken | Silent | Spoke(enrolment: Enrolment)

  datatype Intent = Pair | Resume

  /** The rest of a connection, once its hello has been read. */
  datatype Handshake =
    | Failed
    | Completed(deviceId: string, identity: seq<byte>, intent: Option<Intent>, heard: Heard, verificationCode: string)

  /** A connection, by what it has read so far. */
  datatype Connection =
    | Started(armed: Option<Bootstrap>)
    | Identified(armed: Option<Bootstrap>, claimed: string, known: Option<seq<byte>>)
    | Finished

  predicate Blank(text: string) {
    forall c :: c in text ==> c in WHITE_SPACE
  }

  /** What a decoded enrolment has been checked for. */
  predicate Decodes(e: Enrolment) {
    !Blank(e.deviceName) && !Blank(e.credentialId) && 0 < |e.publicKey| <= 512
  }

  /** A name has a character to see, an id too, and the key is not empty and not too long. */
  lemma {:induction false} DecodesIff(e: Enrolment)
    ensures Decodes(e)
      <==> && (exists i :: 0 <= i < |e.deviceName| && !IsWhiteSpace(e.deviceName[i]))
           && (exists i :: 0 <= i < |e.credentialId| && !IsWhiteSpace(e.credentialId[i]))
           && 1 <= |e.publicKey| <= 512
  {
    hide Blank, IsWhiteSpace;
    BlankIff(e.deviceName);
    BlankIff(e.credentialId);
  }

  lemma BlankIff(text: string)
    ensures Blank(text) <==> forall i :: 0 <= i < |text| ==> IsWhiteSpace(text[i])
  {
    hide IsWhiteSpace;
    forall i | 0 <= i < |text| ensures text[i] in WHITE_SPACE <==> IsWhiteSpace(text[i]) {
      WhiteSpaceIs(text[i]);
    }
    if !Blank(text) {
      var c :| c in text && c !in WHITE_SPACE;
      var i :| 0 <= i < |text| && text[i] == c;
      assert !IsWhiteSpace(text[i]);
    }
  }

  /** What a handshake proves when it completes: the device that was claimed, and the identity that
      was found for it, if one was. What is heard then has been decoded. */
  predicate Presents(claimed: string, known: Option<seq<byte>>, handshake: Handshake) {
    handshake.Completed? ==>
      && handshake.deviceId == claimed
      && (known.Some? ==> handshake.identity == known.value)
      && (handshake.heard.Spoke? ==> Decodes(handshake.heard.enrolment))
  }

  function LookUp(peers: map<string, seq<byte>>, claimed: string): Option<seq<byte>> {
    if claimed in peers then Some(peers[claimed]) else None
  }

  datatype Decision = Fails | Parks | Enrols(enrolment: Enrolment)

  /** What the handshake and the two snapshots lead to. A handshake counts as a pairing exactly
      when the peer was unknown, which needs an armed code. */
  function Decide(armed: Option<Bootstrap>, known: Option<seq<byte>>, handshake: Handshake): Decision {
    if handshake.Failed? || (known.None? && armed.None?) then Fails
    else
      var enrolment :=
        if known.None? || (armed.Some? && handshake.intent == Some(Pair)) then
          if handshake.heard.Spoke? then Enrols(handshake.heard.enrolment) else Fails
        else if armed.Some? && handshake.intent == None then
          match handshake.heard
          case Broken => Fails
          case Silent => Parks
          case Spoke(e) => Enrols(e)
        else Parks;
      if enrolment.Enrols? && armed.Some? && enrolment.enrolment.purpose != armed.value.purpose then Fails
      else enrolment
  }

  function ProposalOf(attemptId: nat, e: Enrolment, handshake: Handshake): Proposal
    requires handshake.Completed?
  {
    Proposal(attemptId, handshake.deviceId, e.deviceName, handshake.identity, e.credentialId, e.publicKey,
             e.purpose, handshake.verificationCode)
  }

  /** What is stored of a proposal: one credential, which may do nothing yet. */
  function DeviceOf(p: Proposal): Device {
    Device(p.deviceName, p.identity, [Credential(p.credentialId, p.publicKey, p.purpose, [])])
  }

  /** `Unwritten` and `PairingRejected` are one refusal to the user: the record could not be written,
      or its credential id is taken. */
  datatype ConfirmAnswer = Stored | StaleAttempt | NoPairing | CodeMismatch | PairingRejected | Unwritten

  // ---- The machine as steps on values ----

  /** `stored` lists what the store has taken, for the proofs only. */
  datatype World = World(
    armed: Option<Bootstrap>,
    knownPeers: map<string, seq<byte>>,
    proposal: Option<Proposal>,
    held: Option<Proposal>,
    devices: Devices,
    stored: seq<Proposal>)

  function Begin(w: World, bootstrap: Bootstrap): World {
    w.(armed := Some(bootstrap), proposal := None, held := None)
  }

  function Cancel(w: World): World {
    w.(armed := None, proposal := None, held := None)
  }

  function Poll(w: World): World {
    if w.held.Some? then w else w.(held := w.proposal, proposal := None)
  }

  function Post(w: World, p: Proposal): World {
    w.(armed := None, proposal := Some(p))
  }

  function ConfirmAnswerOf(w: World, code: string, attemptId: Option<nat>, saved: bool): ConfirmAnswer {
    if attemptId.Some? && w.held.Some? && attemptId.value != w.held.value.attemptId then StaleAttempt
    else if w.held.None? then NoPairing
    else if w.held.value.verificationCode != code then CodeMismatch
    else if Conflicts(w.devices, w.held.value.deviceId, DeviceOf(w.held.value)) then PairingRejected
    else if saved then Stored
    else Unwritten
  }

  function Published(w: World): World {
    w.(knownPeers := Identities(w.devices))
  }

  /** A record is in the store before it is written, and in the peer table after. */
  function Install(w: World, p: Proposal, saved: bool): World {
    if Conflicts(w.devices, p.deviceId, DeviceOf(p)) then w
    else
      var taken := w.(devices := Inserted(w.devices, p.deviceId, DeviceOf(p)), stored := w.stored + [p]);
      if saved then Published(taken) else taken
  }

  function Confirm(w: World, code: string, attemptId: Option<nat>, saved: bool): World {
    match ConfirmAnswerOf(w, code, attemptId, saved)
    case StaleAttempt => w
    case NoPairing => w
    case CodeMismatch => w.(held := None)
    case _ => Install(w.(held := None), w.held.value, saved)
  }

  /** A device leaves the store before that is written, and the peer table after. */
  function Forget(w: World, device: string, saved: bool): World {
    var after := w.(devices := w.devices - {device});
    if device in w.devices && saved then Published(after) else after
  }

  // ---- The transport and the service ----

  class Network {
    var knownPeers: map<string, seq<byte>>
    var armedPairing: Option<Bootstrap>
    var proposal: Option<Proposal>

    constructor ()
      ensures knownPeers == map[] && armedPairing == None && proposal == None
    {
      knownPeers, armedPairing, proposal := map[], None, None;
    }

    method SetKnownPeers(peers: map<string, seq<byte>>)
      modifies this
      ensures knownPeers == peers && armedPairing == old(armedPairing) && proposal == old(proposal)
    {
      knownPeers := peers;
    }

    method ArmPairing(bootstrap: Bootstrap)
      modifies this
      ensures armedPairing == Some(bootstrap) && proposal == None && knownPeers == old(knownPeers)
    {
      proposal := None;
      armedPairing := Some(bootstrap);
    }

    method CancelPairing()
      modifies this
      ensures armedPairing == None && proposal == None && knownPeers == old(knownPeers)
    {
      armedPairing := None;
      proposal := None;
    }

    method TakeProposal() returns (taken: Option<Proposal>)
      modifies this
      ensures taken == old(proposal) && proposal == None
      ensures armedPairing == old(armedPairing) && knownPeers == old(knownPeers)
    {
      taken := proposal;
      proposal := None;
    }

    /** The first lock a connection takes. */
    method ReadArmed() returns (connection: Connection)
      ensures connection == Started(armedPairing)
    {
      connection := Started(armedPairing);
    }

    /** The second lock a connection takes. */
    method ReadPeer(connection: Connection, claimed: string) returns (next: Connection)
      requires connection.Started?
      ensures next == Identified(connection.armed, claimed, LookUp(knownPeers, claimed))
    {
      next := Identified(connection.armed, claimed, LookUp(knownPeers, claimed));
    }

    /** The rest of a connection, up to and including its last lock. Parking is the session
        pool's business. */
    method Complete(connection: Connection, handshake: Handshake, attemptId: nat) returns (decision: Decision)
      requires connection.Identified?
      modifies this
      ensures decision == Decide(connection.armed, connection.known, handshake)
      ensures knownPeers == old(knownPeers)
      ensures if decision.Enrols?
              then armedPairing == None && handshake.Completed?
                   && proposal == Some(ProposalOf(attemptId, decision.enrolment, handshake))
              else armedPairing == old(armedPairing) && proposal == old(proposal)
    {
      if handshake.Failed? || (connection.known.None? && connection.armed.None?) {
        return Fails;
      }
      var enrolment: Option<Enrolment> := None;
      if connection.known.None? {
        if !handshake.heard.Spoke? {
          return Fails;
        }
        enrolment := Some(handshake.heard.enrolment);
      } else if connection.armed.Some? {
        match handshake.intent {
          case Some(Pair) =>
            if !handshake.heard.Spoke? {
              return Fails;
            }
            enrolment := Some(handshake.heard.enrolment);
          case Some(Resume) =>
          case None =>
            match handshake.heard {
              case Broken => return Fails;
              case Silent =>
              case Spoke(e) => enrolment := Some(e);
            }
        }
      }
      if enrolment.None? {
        return Parks;
      }
      if connection.armed.Some? && enrolment.value.purpose != connection.armed.value.purpose {
        return Fails;
      }
      armedPairing := None;
      proposal := Some(ProposalOf(attemptId, enrolment.value, handshake));
      decision := Enrols(enrolment.value);
    }
  }

  class Service {
    const network: Network
    const store: PairingStore
    var heldProposal: Option<Proposal>
    /** What the store has taken so far. */
    ghost var stored: seq<Proposal>

    constructor (network: Network, store: PairingStore)
      ensures this.network == network && this.store == store && heldProposal == None && stored == []
    {
      this.network, this.store := network, store;
      heldProposal, stored := None, [];
    }

    ghost function State(): World
      reads this, network, store
    {
      World(network.armedPairing, network.knownPeers, network.proposal, heldProposal, store.devices, stored)
    }

    /** Mirrors the paired devices into the transport. */
    method PublishKnownPeers()
      modifies network
      ensures State() == Published(old(State()))
    {
      network.SetKnownPeers(Identities(store.devices));
    }

    method BeginPairing(bootstrap: Bootstrap)
      modifies this, network
      ensures State() == Begin(old(State()), bootstrap)
    {
      heldProposal := None;
      network.ArmPairing(bootstrap);
    }

    method CancelPairing()
      modifies this, network
      ensures State() == Cancel(old(State()))
    {
      network.CancelPairing();
      heldProposal := None;
    }

    method PendingPairing() returns (pending: Option<Proposal>)
      modifies this, network
      ensures State() == Poll(old(State()))
      ensures pending == heldProposal
    {
      if heldProposal.Some? {
        return heldProposal;
      }
      var proposal := network.TakeProposal();
      if proposal.None? {
        return None;
      }
      heldProposal := proposal;
      pending := proposal;
    }

    method ConfirmPairing(code: string, attemptId: Option<nat>, saved: bool) returns (answer: ConfirmAnswer)
      requires OneOwner(store.devices)
      modifies this, network, store
      ensures answer == ConfirmAnswerOf(old(State()), code, attemptId, saved)
      ensures State() == Confirm(old(State()), code, attemptId, saved)
    {
      hide Conflicts, Inserted, OneOwner;
      if attemptId.Some? && heldProposal.Some? && attemptId.value != heldProposal.value.attemptId {
        return StaleAttempt;
      }
      var taken := heldProposal;
      heldProposal := None;
      if taken.None? {
        return NoPairing;
      }
      if taken.value.verificationCode != code {
        return CodeMismatch;
      }
      answer := InstallPairing(taken.value, saved);
    }

    method InstallPairing(p: Proposal, saved: bool) returns (answer: ConfirmAnswer)
      requires OneOwner(store.devices)
      modifies this, network, store
      ensures answer == if Conflicts(old(store.devices), p.deviceId, DeviceOf(p)) then PairingRejected
                        else if saved then Stored else Unwritten
      ensures State() == Install(old(State()), p, saved)
    {
      hide Conflicts, Inserted, OneOwner, Identities;
      var outcome := store.Insert(p.deviceId, DeviceOf(p), saved);
      if outcome.Conflict? {
        return PairingRejected;
      }
      stored := stored + [p];
      if outcome.Unsaved? {
        return Unwritten;
      }
      PublishKnownPeers();
      answer := Stored;
    }

    /** The sessions of the device are the pool's business. */
    method ForgetDevice(device: string, saved: bool) returns (outcome: Outcome)
      modifies network, store
      ensures outcome == if device !in old(store.devices) then Unknown else if saved then Saved else Unsaved
      ensures State() == Forget(old(State()), device, saved)
    {
      outcome := store.Remove(device, saved);
      if !outcome.Saved? {
        return;
      }
      PublishKnownPeers();
    }
  }
}
