/** The state of ducknet/lib/arp.cpp. */
module Arp {
  import opened Machine
  import opened ArpSpec
  import opened ArpTable

  type Mac = nat

  const IDLE_CALLS: nat := 128
  const NEVER_EXPIRE: bool := true

  datatype Outcome = Asked | AlreadyAsked | NoRoom

  class AddressResolution {
    const table: Table<Mac>
    const queries: Table<()>
    const idleDelay: nat
    var idleCalls: nat
    var lastIdle: nat
    ghost var updates: seq<Entry<Mac>>

    ghost predicate Valid()
      reads this, table, table.slots, queries, queries.slots
    {
      && table.slots as object != queries.slots as object
      && table.Valid() && queries.Valid() && Records(updates, table.Contents())
    }

    constructor (now: nat, idleDelay: nat)
      ensures Valid() && updates == [] && queries.n == 0
      ensures fresh(table) && fresh(table.slots) && fresh(queries) && fresh(queries.slots)
    {
      table := new Table<Mac>(Entry(0, 0, 0));
      queries := new Table<()>(Entry(0, (), 0));
      this.idleDelay, idleCalls, lastIdle, updates := idleDelay, 0, now, [];
    }

    /** A failed update is one of an unknown address when the table is full. */
    method Update(ip: nat, mac: Mac, expire: nat) returns (ok: bool)
      requires Valid()
      modifies this`updates, table`n, table.slots
      ensures Valid()
      ensures ok <==> old(table.n) < 100 || Known(old(updates), ip).Some?
      ensures updates == if ok then old(updates) + [Entry(ip, mac, expire)] else old(updates)
      ensures ok ==> Known(updates, ip) == Some(mac)
    {
      hide Records, Table.Valid;
      var e := Entry(ip, mac, expire);
      UpdateKnown(updates, e);
      ok := table.Update(e);
      if ok {
        updates := updates + [e];
      }
    }

    /** For every run of updates, queries and idle passes: the latest value, or what KnownIsLatestIff says. */
    method Lookup(ip: nat) returns (r: Option<Mac>)
      requires Valid()
      ensures r == Known(updates, ip)
    {
      r := table.Lookup(ip);
    }

    method Query(ip: nat, expire: nat) returns (r: Outcome)
      requires Valid()
      modifies queries`n, queries.slots
      ensures Valid()
      ensures r == Asked <==> old(queries.n) < 100 && !old(VisibleIp(queries.Contents(), ip))
      ensures r != Asked ==> queries.Contents() == old(queries.Contents())
      ensures r == Asked ==> VisibleIp(queries.Contents(), ip)
      ensures r == Asked ==>
                multiset(queries.Contents()) == multiset(old(queries.Contents())) + multiset{Entry(ip, (), expire)}
      ensures r == AlreadyAsked <==> old(VisibleIp(queries.Contents(), ip))
    {
      hide Records, Table.Valid, Visible, VisibleIp;
      var asked, seen := queries.Ask(Entry(ip, (), expire));
      return if seen then AlreadyAsked else if asked then Asked else NoRoom;
    }

    /** The periodic pass: drops the expired queries and no address. */
    method Idle(now: nat)
      requires Valid()
      modifies this`idleCalls, this`lastIdle, table`n, table.slots, queries`n, queries.slots
      ensures Valid() && table.Contents() == old(table.Contents())
      ensures
        if old(idleCalls) + 1 < 128 && (now - old(lastIdle)) % TWO64 <= idleDelay then
          idleCalls == old(idleCalls) + 1 && lastIdle == old(lastIdle) && queries.Contents() == old(queries.Contents())
        else
          idleCalls == 0 && lastIdle == now && queries.Contents() == Kept(old(queries.Contents()), now, false)
    {
      hide Records, AlmostSorted, Kept;
      idleCalls := idleCalls + 1;
      if idleCalls < IDLE_CALLS && (now - lastIdle) % TWO64 <= idleDelay {
        return;
      }
      idleCalls, lastIdle := 0, now;
      KeptAll(table.Contents(), now);
      table.Compact(now, NEVER_EXPIRE);
      queries.Compact(now, false);
    }
  }
}
