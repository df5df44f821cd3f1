/**
 * The rail's handshake fields updated in place (kernel/native_control.c): the lock regions, the packet handler
 * and one pass of the worker, each run here without interruption. `Handshake` interleaves their lock regions.
 */
module HandshakeEngine {
  import opened Basics
  import opened Handshake

  const HELLO_RETRIES: nat := 5
  const TUNNEL_RETRIES: nat := 20
  const READY_RETRIES: nat := 10

  const ENOTCONN: int := -107

  /** The scan of the peer and rail lists looks for the first native rail with this route and rail id. */
  datatype RailInfo = RailInfo(native: bool, source: nat, route: nat, railId: nat)

  predicate Matches(info: RailInfo, source: Option<nat>, route: nat, railId: nat) {
    info.native && (source.None? || source.value == info.source) && info.route == route && info.railId == railId
  }

  method FindRail(rails: seq<RailInfo>, source: Option<nat>, route: nat, railId: nat) returns (k: Option<nat>)
    ensures k.None? <==> forall i | 0 <= i < |rails| :: !Matches(rails[i], source, route, railId)
    ensures k.Some? ==> k.value < |rails| && Matches(rails[k.value], source, route, railId)
                        && forall i | 0 <= i < k.value :: !Matches(rails[i], source, route, railId)
  {
    var i := 0;
    while i < |rails|
      invariant i <= |rails| && forall j | 0 <= j < i :: !Matches(rails[j], source, route, railId)
    {
      if rails[i].native && (source.None? || source.value == rails[i].source)
         && rails[i].route == route && rails[i].railId == railId
      {
        return Some(i);
      }
      i := i + 1;
    }
    return None;
  }

  /** What the surroundings answer during one worker pass: 0 or an error code per transaction. */
  datatype Outcome = Outcome(hello: int, tunnel: int, ready: int)

  class RailControl {
    var nativeNegotiated: bool
    var tunnelEnabled: bool
    var remoteTransmitPath: int
    var nativeReadySent: bool
    var nativeRemoteReady: bool
    var removing: bool
    var publishEvents: nat
    var nativeAttempts: nat
    var tunnelAttempts: nat
    var readyAttempts: nat
    var lastError: int

    ghost function View(): Rail
      reads this
    {
      Rail(nativeNegotiated, tunnelEnabled, nativeReadySent, nativeRemoteReady, publishEvents > 0)
    }

    constructor ()
      ensures View() == NEW_RAIL && !removing && nativeAttempts == tunnelAttempts == readyAttempts == 0
    {
      nativeNegotiated, tunnelEnabled, remoteTransmitPath := false, false, -1;
      nativeReadySent, nativeRemoteReady, removing, publishEvents := false, false, false, 0;
      nativeAttempts, tunnelAttempts, readyAttempts, lastError := 0, 0, 0, 0;
    }

    /** The publish event is issued when the rail is data-ready and not being removed. */
    method PublishIfReady()
      modifies `publishEvents
      ensures publishEvents == old(publishEvents) + if View().DataReady() && !removing then 1 else 0
      ensures !removing ==> View() == Check(old(View()))
    {
      if tunnelEnabled && nativeReadySent && nativeRemoteReady && !removing {
        publishEvents := publishEvents + 1;
      }
    }

    method ApplyRemote(transmitPath: int)
      modifies `nativeNegotiated, `remoteTransmitPath
      ensures View() == Handshake.ApplyRemote(old(View())) && remoteTransmitPath == transmitPath
    {
      nativeNegotiated, remoteTransmitPath := true, transmitPath;
    }

    method MarkRemoteReady()
      modifies `nativeRemoteReady, `publishEvents
      ensures nativeRemoteReady && (!removing ==> View() == Handshake.MarkRemoteReady(old(View())))
      ensures publishEvents == old(publishEvents) + if tunnelEnabled && nativeReadySent && !removing then 1 else 0
    {
      nativeRemoteReady := true;
      PublishIfReady();
    }

    method MarkLocalReadySent()
      modifies `nativeReadySent, `lastError, `publishEvents
      ensures nativeReadySent && lastError == 0 && (!removing ==> View() == Handshake.MarkLocalReadySent(old(View())))
      ensures publishEvents == old(publishEvents) + if tunnelEnabled && nativeRemoteReady && !removing then 1 else 0
    {
      nativeReadySent, lastError := true, 0;
      PublishIfReady();
    }

    /**
     * tbv_native_control_handle_packet for a packet that names this rail. A READY is acknowledged exactly when
     * the tunnel is up and the reply can be sent, and only an acknowledged READY counts as our own.
     */
    method HandlePacket(op: Op, transmitPath: int, replyOk: bool) returns (reply: Option<Op>, kick: bool)
      modifies `nativeNegotiated, `remoteTransmitPath, `nativeReadySent, `nativeRemoteReady, `publishEvents, `lastError
      ensures op == Hello ==> reply == (if replyOk then Some(HelloAck) else None) && kick
      ensures op == Ready ==> reply == (if tunnelEnabled && replyOk then Some(ReadyAck) else None) && kick
      ensures op == HelloAck || op == ReadyAck ==> reply == None && !kick
      ensures op == Hello || op == HelloAck ==> View() == Handshake.ApplyRemote(old(View()))
      ensures op == ReadyAck ==> View() == old(View())
      ensures op == Ready && !removing ==>
                View() == if reply == Some(ReadyAck) then Handshake.MarkLocalReadySent(Handshake.MarkRemoteReady(old(View())))
                          else Handshake.MarkRemoteReady(old(View()))
      ensures nativeRemoteReady == (old(nativeRemoteReady) || op == Ready)
      ensures nativeReadySent == (old(nativeReadySent) || reply == Some(ReadyAck))
      ensures remoteTransmitPath == if op == Hello || op == HelloAck then transmitPath else old(remoteTransmitPath)
      ensures removing ==> publishEvents == old(publishEvents)
    {
      reply, kick := None, false;
      match op
      case HelloAck => ApplyRemote(transmitPath);
      case ReadyAck =>
      case Ready =>
        var sawTunnel := tunnelEnabled;
        MarkRemoteReady();
        if sawTunnel && replyOk {
          reply := Some(ReadyAck);
          MarkLocalReadySent();
        }
        kick := true;
      case Hello =>
        ApplyRemote(transmitPath);
        if replyOk { reply := Some(HelloAck); }
        kick := true;
    }

    /** The HELLO stage of the worker. */
    method HelloStage(negotiate: bool, result: int, transmitPath: int) returns (proceed: bool, retry: bool)
      modifies `nativeNegotiated, `remoteTransmitPath, `nativeAttempts, `lastError
      ensures proceed <==> !negotiate || old(nativeNegotiated) || result == 0
      ensures retry <==> !proceed && nativeAttempts < 5
      ensures nativeAttempts == old(nativeAttempts) + if negotiate && !old(nativeNegotiated) then 1 else 0
      ensures lastError == if negotiate && !old(nativeNegotiated) then result else old(lastError)
      ensures View() == if negotiate && !old(nativeNegotiated) && proceed then Handshake.ApplyRemote(old(View())) else old(View())
      ensures remoteTransmitPath == if negotiate && !old(nativeNegotiated) && proceed then transmitPath else old(remoteTransmitPath)
    {
      proceed, retry := true, false;
      if negotiate && !nativeNegotiated {
        nativeAttempts := nativeAttempts + 1;
        if result == 0 { ApplyRemote(transmitPath); }
        lastError := result;
        if result != 0 {
          proceed, retry := false, nativeAttempts < HELLO_RETRIES;
        }
      }
    }

    /** The tunnel stage: only a negotiated rail's tunnel is ever enabled. */
    method TunnelStage(enableTunnels: bool, result: int) returns (proceed: bool, retry: bool)
      modifies `tunnelEnabled, `tunnelAttempts, `lastError, `publishEvents
      ensures proceed <==> !enableTunnels || tunnelEnabled
      ensures tunnelEnabled
              == (old(tunnelEnabled) || (enableTunnels && nativeNegotiated && remoteTransmitPath >= 0 && result == 0))
      ensures var tried := enableTunnels && !old(tunnelEnabled) && nativeNegotiated && remoteTransmitPath >= 0;
              && tunnelAttempts == old(tunnelAttempts) + (if tried then 1 else 0)
              && (retry <==> tried && result != 0 && tunnelAttempts < 20)
              && lastError == (if tried then result else if proceed then old(lastError) else -107)
      ensures old(tunnelEnabled) || !tunnelEnabled ==> publishEvents == old(publishEvents)
      ensures !removing && tunnelEnabled && !old(tunnelEnabled) ==> View() == Check(old(View()).(tunnel := true))
      ensures publishEvents >= old(publishEvents)
    {
      proceed, retry := true, false;
      if enableTunnels && !tunnelEnabled {
        if !nativeNegotiated || remoteTransmitPath < 0 {
          lastError := ENOTCONN;
          return false, false;
        }
        tunnelAttempts := tunnelAttempts + 1;
        lastError := result;
        if result != 0 { return false, tunnelAttempts < TUNNEL_RETRIES; }
        tunnelEnabled := true;
        PublishIfReady();
      }
    }

    /** The READY stage: a failed exchange still counts when the rail has become data-ready meanwhile. */
    method ReadyStage(enableTunnels: bool, result: int) returns (retry: bool)
      modifies `nativeReadySent, `nativeRemoteReady, `readyAttempts, `lastError, `publishEvents
      ensures nativeReadySent <==> old(nativeReadySent) || (enableTunnels && tunnelEnabled && result == 0)
      ensures var tried := enableTunnels && tunnelEnabled && !old(nativeReadySent);
              && readyAttempts == old(readyAttempts) + (if tried then 1 else 0)
              && (retry <==> tried && result != 0 && readyAttempts < 10)
              && lastError == (if tried then result else old(lastError))
      ensures nativeRemoteReady <==> old(nativeRemoteReady) || (nativeReadySent && !old(nativeReadySent))
      ensures old(nativeReadySent) ==> View() == old(View())
      ensures !old(nativeReadySent) && nativeReadySent && !removing ==>
                View() == Handshake.MarkLocalReadySent(Handshake.MarkRemoteReady(old(View())))
      ensures publishEvents >= old(publishEvents)
    {
      retry := false;
      if enableTunnels && tunnelEnabled && !nativeReadySent {
        readyAttempts := readyAttempts + 1;
        if result == 0 { MarkRemoteReady(); }
        lastError := result;
        if result != 0 { return readyAttempts < READY_RETRIES; }
        nativeReadySent := true;
        PublishIfReady();
      }
    }

    /**
     * After the pass: the stage it failed in is tried again unless it has been tried 5, 20 or 10 times. A pass fails at
     * HELLO when the rail is still not negotiated, at the tunnel when that is still down though it could be tried, and at
     * READY when that is still not sent.
     */
    ghost predicate Retries(negotiate: bool, enableTunnels: bool, hellos: nat, tunnels: nat, readies: nat)
      reads this
    {
      if negotiate && !nativeNegotiated then hellos + 1 < 5
      else if !enableTunnels then false
      else if !tunnelEnabled then nativeNegotiated && remoteTransmitPath >= 0 && tunnels + 1 < 20
      else !nativeReadySent && readies + 1 < 10
    }

    /**
     * One pass of tbv_native_control_work that nobody interrupts. It advances at most through HELLO, tunnel and
     * READY, keeps every data-ready rail published, and asks for a retry only after a failure.
     */
    method Work(negotiate: bool, enableTunnels: bool, stop: bool, outcome: Outcome, transmitPath: int) returns (retry: bool)
      requires nativeReadySent ==> tunnelEnabled && nativeRemoteReady
      modifies this
      ensures nativeReadySent ==> tunnelEnabled && nativeRemoteReady
      ensures Grows(old(View()), View()) && removing == old(removing)
      ensures !removing && (old(View()).DataReady() ==> old(View()).published) ==> (View().DataReady() ==> View().published)
      ensures stop ==> View() == old(View()) && !retry
      ensures nativeNegotiated == (old(nativeNegotiated) || (!stop && negotiate && outcome.hello == 0))
      ensures var known := !negotiate || nativeNegotiated;
              && tunnelEnabled == (old(tunnelEnabled) || (!stop && known && enableTunnels && nativeNegotiated
                                                          && remoteTransmitPath >= 0 && outcome.tunnel == 0))
              && nativeReadySent == (old(nativeReadySent) || (!stop && known && enableTunnels && tunnelEnabled && outcome.ready == 0))
      ensures remoteTransmitPath == if nativeNegotiated && !old(nativeNegotiated) then transmitPath else old(remoteTransmitPath)
      ensures retry == (!stop && Retries(negotiate, enableTunnels, old(nativeAttempts), old(tunnelAttempts), old(readyAttempts)))
      ensures !stop && enableTunnels && outcome == Outcome(0, 0, 0) && transmitPath >= 0 && (negotiate || old(nativeNegotiated))
              && (old(nativeNegotiated) ==> old(remoteTransmitPath) >= 0)
              ==> View().DataReady() && !retry
    {
      retry := false;
      if stop { return; }
      var proceed;
      proceed, retry := HelloStage(negotiate, outcome.hello, transmitPath);
      if !proceed { return; }
      proceed, retry := TunnelStage(enableTunnels, outcome.tunnel);
      if !proceed { return; }
      retry := ReadyStage(enableTunnels, outcome.ready);
    }
  }
}
