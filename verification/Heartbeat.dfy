/** This host's liveness key: publishing it under a lease, publishing it again once the lease is
    lost, taking it down, and reading everyone's. */
module Heartbeats {
  import opened Domain
  import opened Text
  import opened ReconcilePlan

  const HEARTBEAT_PREFIX := "/docker-coredns-sync/heartbeat"

  function HeartbeatKey(hostname: string): string {
    HEARTBEAT_PREFIX + "/" + hostname
  }

  /** A liveness key names its host: trimming gives the name back, and no other name has that key. */
  lemma HeartbeatKeyTrimmed(hostname: string)
    ensures HeartbeatKey(hostname) == "/docker-coredns-sync/heartbeat/" + hostname
    ensures HasPrefix(HeartbeatKey(hostname), HEARTBEAT_PREFIX + "/")
    ensures TrimPrefix(HeartbeatKey(hostname), HEARTBEAT_PREFIX + "/") == hostname
    ensures forall key ::
              HasPrefix(key, HEARTBEAT_PREFIX + "/") && TrimPrefix(key, HEARTBEAT_PREFIX + "/") == hostname ==>
              key == HeartbeatKey(hostname)
  {
    var base := HEARTBEAT_PREFIX + "/";
    forall key | HasPrefix(key, base) && TrimPrefix(key, base) == hostname
      ensures key == HeartbeatKey(hostname)
    {
      assert key == key[..|base|] + key[|base|..];
    }
  }

  /** How one round of grant, put and keep-alive comes out. A call that fails may still have taken
      effect, and each call of the cleanup may fail too. */
  datatype Attempt =
    | GrantFails
    | PutFails(stored: bool, deleted: bool, revoked: bool)
    | KeepAliveFails(deleted: bool, revoked: bool)
    | Succeeds

  class Heartbeat {
    const hostname: string
    /** The liveness keys in etcd, each with the lease it lives under. */
    var kv: map<string, nat>
    var granted: nat
    var hbLease: Option<nat>
    var hbCancel: bool
    var hbActive: bool

    constructor (hostname: string, kv: map<string, nat>, granted: nat)
      requires forall k :: k in kv ==> kv[k] < granted
      ensures Valid() && this.hostname == hostname && this.kv == kv
      ensures !hbActive && !hbCancel && hbLease == None
    {
      this.hostname, this.kv, this.granted := hostname, kv, granted;
      hbLease, hbCancel, hbActive := None, false, false;
    }

    ghost predicate Valid()
      reads this
    {
      && (forall k :: k in kv ==> kv[k] < granted)
      && (hbLease.Some? ==> IsOurs(hbLease.value))
    }

    /** A lease of this host's: it was granted, and nothing but this host's key is under it. */
    ghost predicate IsOurs(lease: nat)
      reads this
    {
      && lease < granted
      && (forall k :: k in kv && kv[k] == lease ==> k == HeartbeatKey(hostname))
    }

    /** This host's key is up under the lease. */
    ghost predicate IsUp(lease: nat)
      reads this
    {
      HeartbeatKey(hostname) in kv && kv[HeartbeatKey(hostname)] == lease
    }

    /** Nobody else's key has changed. */
    twostate predicate OthersKept()
      reads this
    {
      forall k :: k != HeartbeatKey(hostname) ==>
        (k in kv <==> k in old(kv)) && (k in kv ==> kv[k] == old(kv)[k])
    }

    method Delete(key: string)
      requires Valid()
      modifies this`kv
      ensures Valid() && kv == old(kv) - {key}
    {
      kv := kv - {key};
    }

    /** Revoking a lease, or its expiry, takes every key under it along. */
    method Revoke(lease: nat)
      requires Valid()
      modifies this`kv
      ensures Valid() && kv == map k | k in old(kv) && old(kv)[k] != lease :: old(kv)[k]
    {
      kv := map k | k in kv && kv[k] != lease :: kv[k];
    }

    method BestEffortCleanup(lease: nat, key: string, deleted: bool, revoked: bool)
      requires Valid() && (forall k :: k in kv && kv[k] == lease ==> k == key)
      modifies this`kv
      ensures Valid() && (forall k :: k != key ==> (k in kv <==> k in old(kv)) && (k in kv ==> kv[k] == old(kv)[k]))
      ensures key in kv <==> key in old(kv) && !deleted && !(revoked && old(kv)[key] == lease)
    {
      if deleted {
        Delete(key);
      }
      if revoked {
        Revoke(lease);
      }
    }

    /** On success the key is up under a fresh lease. After a failure it is down if the cleanup got
        anything done, even if it was up before; nobody else's key is touched either way. */
    method GrantAndKeepAlive(a: Attempt) returns (lease: Option<nat>)
      requires Valid()
      modifies this`kv, this`granted
      ensures Valid() && OthersKept() && granted >= old(granted)
      ensures lease.Some? <==> a.Succeeds?
      ensures lease.Some? ==> IsOurs(lease.value) && IsUp(lease.value) && lease.value >= old(granted)
      ensures a.GrantFails? ==> kv == old(kv)
      ensures a.PutFails? && a.stored ==> (HeartbeatKey(hostname) in kv <==> !a.deleted && !a.revoked)
      ensures a.PutFails? && !a.stored ==>
                (HeartbeatKey(hostname) in kv <==> HeartbeatKey(hostname) in old(kv) && !a.deleted)
      ensures a.KeepAliveFails? ==> (HeartbeatKey(hostname) in kv <==> !a.deleted && !a.revoked)
    {
      var key := HeartbeatKey(hostname);
      if a.GrantFails? {
        return None;
      }
      var id := granted;
      granted := granted + 1;
      if a.PutFails? {
        if a.stored {
          kv := kv[key := id];
        }
        BestEffortCleanup(id, key, a.deleted, a.revoked);
        return None;
      }
      kv := kv[key := id];
      if a.KeepAliveFails? {
        BestEffortCleanup(id, key, a.deleted, a.revoked);
        return None;
      }
      return Some(id);
    }

    /** A start that fails leaves the host inactive, with nothing for a later stop to take down. */
    method StartHeartbeat(a: Attempt) returns (ok: bool)
      requires Valid()
      modifies this
      ensures Valid() && OthersKept()
      ensures ok <==> a.Succeeds?
      ensures ok ==> hbActive && hbCancel && hbLease.Some? && IsUp(hbLease.value)
      ensures !ok ==> hbActive == old(hbActive) && hbCancel == old(hbCancel) && hbLease == old(hbLease)
    {
      var lease := GrantAndKeepAlive(a);
      if lease == None {
        return false;
      }
      hbLease, hbCancel, hbActive := lease, true, true;
      return true;
    }

    /** The new lease is recorded and GC is on again, whatever has become of the host since. */
    method Reactivate(lease: nat)
      requires Valid() && IsOurs(lease)
      modifies this`hbLease, this`hbActive
      ensures Valid() && hbLease == Some(lease) && hbActive
    {
      hbLease, hbActive := Some(lease), true;
    }

    /** Tries until one attempt succeeds or the attempts end by cancellation. GC is on again only
        once the key is up again. */
    method ReestablishHeartbeat(attempts: seq<Attempt>) returns (ok: bool)
      requires Valid() && !hbActive
      modifies this
      ensures Valid() && OthersKept() && hbCancel == old(hbCancel)
      ensures ok <==> Succeeds in attempts
      ensures hbActive <==> ok
      ensures ok ==> hbLease.Some? && IsUp(hbLease.value)
      ensures !ok ==> hbLease == old(hbLease)
    {
      for i := 0 to |attempts|
        invariant Valid() && OthersKept() && !hbActive && hbCancel == old(hbCancel) && hbLease == old(hbLease)
        invariant Succeeds !in attempts[..i]
      {
        var lease := GrantAndKeepAlive(attempts[i]);
        if lease.Some? {
          Reactivate(lease.value);
          assert attempts[i] in attempts;
          return true;
        }
      }
      return false;
    }

    /** The keep-alive channel has closed: GC is off until the key is up again. */
    method LeaseLost(attempts: seq<Attempt>) returns (ok: bool)
      requires Valid()
      modifies this
      ensures Valid() && OthersKept() && hbCancel == old(hbCancel)
      ensures hbActive <==> Succeeds in attempts
      ensures hbActive ==> hbLease.Some? && IsUp(hbLease.value)
    {
      hbActive := false;
      ok := ReestablishHeartbeat(attempts);
    }

    /** A clean stop takes the key down at once if either call gets through. If no start succeeded
        it touches no key at all. */
    method StopHeartbeat(deleted: bool, revoked: bool)
      requires Valid()
      modifies this
      ensures Valid() && OthersKept() && !hbActive && !hbCancel && hbLease == None
      ensures !old(hbCancel) ==> kv == old(kv)
      ensures old(hbCancel) && deleted ==> HeartbeatKey(hostname) !in kv
      ensures old(hbCancel) && revoked && old(hbLease.Some? && IsUp(hbLease.value)) ==> HeartbeatKey(hostname) !in kv
      ensures !deleted && !revoked ==> kv == old(kv)
    {
      var cancel, lease := Deactivate();
      if cancel {
        TakeDown(lease, deleted, revoked);
      }
    }

    /** The first half of a stop, under the mutex. */
    method Deactivate() returns (cancel: bool, lease: Option<nat>)
      requires Valid()
      modifies this`hbLease, this`hbCancel, this`hbActive
      ensures Valid() && !hbActive && !hbCancel && hbLease == None
      ensures cancel == old(hbCancel) && lease == old(hbLease)
    {
      cancel, lease := hbCancel, hbLease;
      hbLease, hbCancel, hbActive := None, false, false;
    }

    /** The second half, outside it: deletes the key whatever its lease, and revokes the lease the first
        half found. */
    method TakeDown(lease: Option<nat>, deleted: bool, revoked: bool)
      requires Valid() && (lease.Some? ==> IsOurs(lease.value))
      modifies this`kv
      ensures Valid() && OthersKept()
      ensures HeartbeatKey(hostname) in kv <==>
              && HeartbeatKey(hostname) in old(kv) && !deleted
              && !(revoked && lease == Some(old(kv)[HeartbeatKey(hostname)]))
      ensures HeartbeatKey(hostname) in kv ==> kv[HeartbeatKey(hostname)] == old(kv)[HeartbeatKey(hostname)]
      ensures !deleted && !revoked ==> kv == old(kv)
    {
      if deleted {
        Delete(HeartbeatKey(hostname));
      }
      if revoked && lease.Some? {
        Revoke(lease.value);
      }
    }

    /** A stop that meets the re-establishing of a lost lease, whose attempt got through before the stop
        cancels it, the new lease being recorded after the stop cleared it. The host is then active after
        it has been stopped, with nothing for another stop to take down, and its key is up unless the
        deletion gets through: the stop revokes the lost lease, not the new one. */
    method StopMeetsReestablish(deleted: bool, revoked: bool)
      requires Valid() && hbCancel && !hbActive
      modifies this
      ensures Valid() && OthersKept()
      ensures hbActive && !hbCancel && hbLease.Some?
      ensures HeartbeatKey(hostname) in kv <==> !deleted
      ensures HeartbeatKey(hostname) in kv ==> IsUp(hbLease.value)
    {
      var renewed := GrantAndKeepAlive(Succeeds);
      var _, lease := Deactivate();
      TakeDown(lease, deleted, revoked);
      Reactivate(renewed.value);
    }

    /** A put of the attempt that the stop cancels reports an error, but may take effect all the same, and
        after the stop has deleted the key. The host is then inactive, and its key is up exactly if both
        calls of the clean-up of the attempt fail; no stop will take it down. */
    method StopMeetsLatePut(deleted: bool, revoked: bool, cleanDeleted: bool, cleanRevoked: bool)
      requires Valid() && hbCancel && !hbActive
      modifies this
      ensures Valid() && OthersKept()
      ensures !hbActive && !hbCancel && hbLease == None
      ensures HeartbeatKey(hostname) in kv <==> !cleanDeleted && !cleanRevoked
    {
      var _, lease := Deactivate();
      TakeDown(lease, deleted, revoked);
      var renewed := GrantAndKeepAlive(PutFails(true, cleanDeleted, cleanRevoked));
    }

    /** The hosts whose records are not to be collected: those with a key up, and this host. An
        inactive host, or a read that fails, gives no set at all, so nothing is collected. */
    method GetLiveHostnames(readFails: bool) returns (ok: bool, live: Liveness)
      ensures live.Some? <==> hbActive && !readFails
      ensures ok <==> !hbActive || !readFails
      ensures live.Some? ==> forall h :: h in live.value <==> h == hostname || (h != "" && HeartbeatKey(h) in kv)
    {
      if !hbActive {
        return true, None;
      }
      if readFails {
        return false, None;
      }
      var base := HEARTBEAT_PREFIX + "/";
      var hosts: set<string> := {};
      var rest := set k | k in kv && HasPrefix(k, base);
      while rest != {}
        invariant forall k :: k in rest ==> k in kv && HasPrefix(k, base)
        invariant forall h :: h in hosts ==> h != "" && HeartbeatKey(h) in kv
        invariant forall h :: h != "" && HeartbeatKey(h) in kv && h !in hosts ==> HeartbeatKey(h) in rest
        decreases |rest|
      {
        var key :| key in rest;
        rest := rest - {key};
        var host := TrimPrefix(key, base);
        HeartbeatKeyTrimmed(host);
        if host != "" {
          hosts := hosts + {host};
        }
      }
      return true, Some(hosts + {hostname});
    }
  }
}
