/**
 One process's view of the subscription table: the rows, the short-lived read cache in front
 of them, and the queue worker's once-per-job metering. Interleavings with other processes
 are the subject of `Metering`; here every call runs to its end.
 */
module SubscriptionStore {
  import opened Options
  import opened Entitlements
  import opened Replies

  type TenantId = string
  type JobId = string

  const NEGATIVE_TTL_MS := 5_000
  const METER_MARKER_TTL_MS := 30 * 24 * 60 * 60 * 1000

  datatype CacheEntry = CacheEntry(subscription: Option<Subscription>, expiresAt: int)

  datatype Lookup = Found(sub: Subscription) | NoSubscription | StoreUnavailable

  class Store {
    var rows: map<TenantId, Subscription>
    var cache: map<TenantId, CacheEntry>
    const ttlMs: nat

    constructor (ttlMs: nat)
      ensures this.ttlMs == ttlMs && rows == map[] && cache == map[] && Coherent()
    {
      this.ttlMs := ttlMs;
      rows, cache := map[], map[];
    }

    /** Every cache entry says what the table says. */
    ghost predicate Coherent()
      reads this
    {
      forall t :: t in cache ==> cache[t].subscription == RowOf(rows, t)
    }

    /** A missing row is remembered more briefly than a row. */
    function Lifetime(present: bool): nat { if present then ttlMs else Min(ttlMs, NEGATIVE_TTL_MS) }

    predicate Hit(tenant: TenantId, now: int)
      reads this
    {
      tenant in cache && cache[tenant].expiresAt > now
    }

    /** What a lookup goes by: the cached copy while it lasts, however stale, and otherwise the row. */
    function Seen(tenant: TenantId, now: int): Option<Subscription>
      reads this
    {
      if Hit(tenant, now) then cache[tenant].subscription else RowOf(rows, tenant)
    }

    /**
     A lookup returns the copy it goes by, and so the row while the cache is right; failing is never taken for
     "no row".
     */
    method ResolveSubscription(tenant: TenantId, now: int, dbAnswers: bool) returns (found: Lookup)
      modifies this`cache
      ensures found == StoreUnavailable
         <==> !(tenant in old(cache) && old(cache)[tenant].expiresAt > now) && !dbAnswers
      ensures tenant in old(cache) && old(cache)[tenant].expiresAt > now ==>
                found == AsLookup(old(cache)[tenant].subscription)
      ensures found != StoreUnavailable ==> found == AsLookup(old(Seen(tenant, now)))
      ensures old(Coherent()) ==> Coherent()
      ensures old(Coherent()) && found != StoreUnavailable ==> found == AsLookup(RowOf(rows, tenant))
      ensures old(Hit(tenant, now)) || !dbAnswers ==> cache == old(cache)
      ensures !old(Hit(tenant, now)) && dbAnswers ==>
                cache == old(cache)[tenant := CacheEntry(RowOf(rows, tenant), now + Lifetime(tenant in rows))]
    {
      if Hit(tenant, now) {
        var entry := cache[tenant];
        return if entry.subscription.Some? then Found(entry.subscription.value) else NoSubscription;
      }
      if !dbAnswers {
        return StoreUnavailable;
      }
      if tenant !in rows {
        cache := cache[tenant := CacheEntry(None, now + Min(ttlMs, NEGATIVE_TTL_MS))];
        return NoSubscription;
      }
      cache := cache[tenant := CacheEntry(Some(rows[tenant]), now + ttlMs)];
      return Found(rows[tenant]);
    }

    /**
     The upsert replaces this tenant's row alone and leaves no cache entry behind for it. When only
     its reply is lost the row is replaced all the same, and the entry stays: from then on the cache
     is right exactly when that entry happens to be the new record.
     */
    method PutSubscription(tenant: TenantId, sub: Subscription, reply: Reply) returns (ok: bool)
      modifies this`rows, this`cache
      ensures ok == reply.Answered?
      ensures rows == (if Done(reply) then old(rows)[tenant := sub] else old(rows))
      ensures cache == (if ok then old(cache) - {tenant} else old(cache))
      ensures ok ==> forall now :: Seen(tenant, now) == Some(sub)
      ensures old(Coherent()) ==>
                (Coherent() <==> (reply.Unanswered? && tenant in cache ==> cache[tenant].subscription == Some(sub)))
    {
      if reply.Rejected? {
        return false;
      }
      rows := rows[tenant := sub];
      if reply.Unanswered? {
        assert rows[tenant] == sub;
        return false;
      }
      cache := cache - {tenant};
      return true;
    }

    /**
     Metering either puts the copy the lookup goes by, with exactly this document added, in the place
     of the tenant's row, or changes no row at all. A truthful cache stays truthful unless the write
     took effect and its reply was lost.
     */
    method RecordDocumentUsage(tenant: TenantId, doc: Doc, readAnswers: bool, write: Reply)
      modifies this`rows, this`cache
      ensures rows == old(Metered(tenant, doc, readAnswers, write))
      ensures old(Coherent()) ==> (Coherent() <==> !(write.Unanswered? && rows != old(rows)))
      ensures old(Coherent()) && rows != old(rows) ==> tenant in old(rows)
      ensures old(Coherent()) && tenant in old(rows) && readAnswers && Done(write) ==>
                rows == old(rows)[tenant := RecordUsage(old(rows)[tenant], doc)]
    {
      var found := ResolveSubscription(tenant, doc.at, readAnswers);
      if found.Found? {
        OneMoreDocument(found.sub, doc);
        hide RecordUsage;
        ghost var before := rows;
        var _ := PutSubscription(tenant, RecordUsage(found.sub, doc), write);
        assert write.Unanswered? && tenant in before && before[tenant] == found.sub ==> rows[tenant] != before[tenant];
      }
    }

    /** The table after one document. */
    function Metered(tenant: TenantId, doc: Doc, readAnswers: bool, write: Reply): map<TenantId, Subscription>
      reads this
    {
      var seen := Seen(tenant, doc.at);
      if seen.Some? && (Hit(tenant, doc.at) || readAnswers) && Done(write)
      then rows[tenant := RecordUsage(seen.value, doc)] else rows
    }
  }

  lemma OneMoreDocument(sub: Subscription, doc: Doc)
    ensures RecordUsage(sub, doc) != sub
  {
    assert RecordUsage(sub, doc).usage.documents == sub.usage.documents + 1;
  }

  function AsLookup(seen: Option<Subscription>): Lookup {
    if seen.Some? then Found(seen.value) else NoSubscription
  }

  function RowOf(rows: map<TenantId, Subscription>, tenant: TenantId): Option<Subscription> {
    if tenant in rows then Some(rows[tenant]) else None
  }

  class JobWorker {
    const store: Store
    var markers: map<JobId, int>   // expiry of each job's marker

    constructor (store: Store)
      ensures this.store == store && markers == map[]
    {
      this.store := store;
      markers := map[];
    }

    predicate Marked(job: JobId, now: int)
      reads this
    {
      job in markers && markers[job] > now
    }

    /**
     Meters at most once per job while Redis answers and the marker lives, and meters anyway when the
     claim of the marker fails, also when it was made and only its reply is lost.
     */
    method MeterOnce(
      job: Option<JobId>, tenant: TenantId, doc: Doc, claim: Reply, readAnswers: bool, write: Reply)
      returns (metered: bool)
      modifies this`markers, store`rows, store`cache
      ensures metered
         <==> job.None? || !claim.Answered? || !(job.value in old(markers) && old(markers)[job.value] > doc.at)
      ensures markers == (if job.Some? && Done(claim) && !old(Marked(job.value, doc.at))
                          then old(markers)[job.value := doc.at + METER_MARKER_TTL_MS] else old(markers))
      ensures job.Some? && Done(claim) ==> Marked(job.value, doc.at)
      ensures store.rows
           == (if metered then old(store.Metered(tenant, doc, readAnswers, write)) else old(store.rows))
      ensures old(store.Coherent()) ==>
                (store.Coherent() <==> !(write.Unanswered? && store.rows != old(store.rows)))
    {
      if job.Some? {
        var claimed := !Marked(job.value, doc.at);
        if Done(claim) && claimed {
          markers := markers[job.value := doc.at + METER_MARKER_TTL_MS];
        }
        if claim.Answered? && !claimed {
          return false;
        }
      }
      store.RecordDocumentUsage(tenant, doc, readAnswers, write);
      return true;
    }
  }
}
