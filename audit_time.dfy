/**
 * `AuditTimeInterceptor`: before changes are saved, every tracked `IAuditTime` entity that
 * is being added gets `CreatedAt` stamped, and every one being modified gets `UpdatedAt`
 * stamped. `Product` is the application's only `IAuditTime` entity; the clock is a parameter.
 */
module AuditTime {
  import opened Wrappers
  import opened Dates
  import opened Products

  /** EF Core's `EntityState`. */
  datatype EntityState = Detached | Unchanged | Deleted | Modified | Added

  /** A change-tracker entry: one for an `IAuditTime` entity, or one for an entity of any other type. */
  datatype Entry = AuditEntry(state: EntityState, entity: Product) | OtherEntry(state: EntityState)

  /** The entities `ChangeTracker.Entries<IAuditTime>()` yields. */
  function Audited(entries: seq<Entry>): set<Product> {
    set e | e in entries && e.AuditEntry? :: e.entity
  }

  /** Some entry of `entries` tracks `p` in state `state`. */
  predicate HasEntry(entries: seq<Entry>, p: Product, state: EntityState) {
    exists i :: 0 <= i < |entries| && entries[i] == AuditEntry(state, p)
  }

  /**
   * A product's state after the interceptor: `CreatedAt` is `now` when it is being added,
   * `UpdatedAt` is `now` when it is being modified, and every other property is as it was.
   */
  function Stamp(row: ProductRow, added: bool, modified: bool, now: Ticks): (r: ProductRow)
    ensures r.(createdAt := row.createdAt, updatedAt := row.updatedAt) == row
    ensures r.createdAt == if added then now else row.createdAt
    ensures r.updatedAt == if modified then Some(now) else row.updatedAt
  {
    row.(createdAt := if added then now else row.createdAt,
         updatedAt := if modified then Some(now) else row.updatedAt)
  }

  /** An entity neither added nor modified keeps every property. */
  lemma StampOfUntouched(row: ProductRow, now: Ticks)
    ensures Stamp(row, false, false, now) == row
  {
  }

  /** One more entry for `p` in state `state` adds that state to what `p` has. */
  lemma HasEntryStep(entries: seq<Entry>, i: nat, p: Product, state: EntityState)
    requires i < |entries|
    ensures HasEntry(entries[..i + 1], p, state) <==> HasEntry(entries[..i], p, state) || entries[i] == AuditEntry(state, p)
  {
    var before, after := entries[..i], entries[..i + 1];
    if HasEntry(after, p, state) && entries[i] != AuditEntry(state, p) {
      var k :| 0 <= k < |after| && after[k] == AuditEntry(state, p);
      assert before[k] == after[k];
    }
    if HasEntry(before, p, state) {
      var k :| 0 <= k < |before| && before[k] == AuditEntry(state, p);
      assert after[k] == before[k];
    }
    if entries[i] == AuditEntry(state, p) {
      assert after[i] == entries[i];
    }
  }

  /**
   * `StartAudit(context)`: visits the `IAuditTime` entries in turn, stamping `CreatedAt` on
   * each one in state `Added` and `UpdatedAt` on each one in state `Modified`. Entries of
   * other types are not visited, and entries in any other state are left alone.
   */
  method StartAudit(entries: seq<Entry>, now: Ticks)
    modifies Audited(entries)
    ensures forall p :: p in Audited(entries) ==>
      p.Row() == Stamp(old(p.Row()), HasEntry(entries, p, Added), HasEntry(entries, p, Modified), now)
  {
    for i := 0 to |entries|
      invariant forall p :: p in Audited(entries) ==>
        p.Row() == Stamp(old(p.Row()), HasEntry(entries[..i], p, Added), HasEntry(entries[..i], p, Modified), now)
    {
      forall p | p in Audited(entries)
        ensures HasEntry(entries[..i + 1], p, Added) <==> HasEntry(entries[..i], p, Added) || entries[i] == AuditEntry(Added, p)
        ensures HasEntry(entries[..i + 1], p, Modified) <==> HasEntry(entries[..i], p, Modified) || entries[i] == AuditEntry(Modified, p)
      {
        HasEntryStep(entries, i, p, Added);
        HasEntryStep(entries, i, p, Modified);
      }
      var entry := entries[i];
      if entry.AuditEntry? {
        assert entry in entries;
        if entry.state == Added {
          entry.entity.CreatedAt := now;
        }
        if entry.state == Modified {
          entry.entity.UpdatedAt := Some(now);
        }
      }
    }
    assert entries[..|entries|] == entries;
  }

  /**
   * `SavingChangesAsync(eventData, result)`: stamps the context's entries when there is a
   * context, and hands `result` on unchanged either way.
   */
  method SavingChanges<R>(context: Option<seq<Entry>>, result: R, now: Ticks) returns (r: R)
    modifies if context.Some? then Audited(context.value) else {}
    ensures r == result
    ensures context.Some? ==> forall p :: p in Audited(context.value) ==>
      p.Row() == Stamp(old(p.Row()), HasEntry(context.value, p, Added), HasEntry(context.value, p, Modified), now)
  {
    if context.Some? {
      StartAudit(context.value, now);
    }
    return result;
  }
}
