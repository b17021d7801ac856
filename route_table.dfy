/** The router's forwarding table: one entry per destination network, giving
    the gateway (0 for a directly connected network) and the egress interface.
    Lookup picks the most specific matching network; `Update` changes the entry
    for an exact network in place and `Insert` adds a new one. */
module RouteTable {
  import opened JavaTypes
  import opened Outcomes
  import opened Packets

  datatype RouteEntry = RouteEntry(destinationAddress: int32, maskAddress: int32, gatewayAddress: int32, iface: Iface)

  /** A destination network: address and mask. */
  datatype Network = Network(address: int32, mask: int32)

  function Key(e: RouteEntry): Network
  {
    Network(e.destinationAddress, e.maskAddress)
  }

  /** At most one entry per network. */
  ghost predicate UniqueKeys(table: seq<RouteEntry>)
  {
    forall i, j :: 0 <= i < j < |table| ==> Key(table[i]) != Key(table[j])
  }

  /** `dst` lies in the entry's network: it agrees with the entry's address on
      every mask bit, that is `(dst & mask) == (address & mask)`. */
  predicate Matches(e: RouteEntry, dst: int32)
  {
    SameNetwork(Unsigned32(dst), Unsigned32(e.destinationAddress), Unsigned32(e.maskAddress), 32)
  }

  /** `a` and `b` agree on every one of their low `width` bits that is set in
      `mask`, taking the bits least significant first. */
  predicate SameNetwork(a: nat, b: nat, mask: nat, width: nat)
    decreases width
  {
    || width == 0
    || ((mask % 2 == 1 ==> a % 2 == b % 2) && SameNetwork(a / 2, b / 2, mask / 2, width - 1))
  }

  /** Mask specificity, comparing masks as unsigned numbers (a longer prefix of
      ones is a larger number). */
  function Specificity(e: RouteEntry): int
  {
    Unsigned32(e.maskAddress)
  }

  /** Longest-prefix match: an entry containing `dst` that no other containing
      entry beats in specificity (the first such entry on ties), or None when
      no entry contains `dst`. */
  function Lookup(table: seq<RouteEntry>, dst: int32): (r: Option<RouteEntry>)
    ensures r.None? <==> forall i :: 0 <= i < |table| ==> !Matches(table[i], dst)
    ensures r.Some? ==> r.value in table && Matches(r.value, dst)
    ensures r.Some? ==> forall i :: 0 <= i < |table| && Matches(table[i], dst) ==> Specificity(table[i]) <= Specificity(r.value)
  {
    if table == [] then None
    else
      var rest := Lookup(table[1..], dst);
      assert forall i :: 1 <= i < |table| ==> table[i] == table[1..][i - 1];
      if !Matches(table[0], dst) then rest
      else if rest.Some? && Specificity(rest.value) > Specificity(table[0]) then rest
      else Some(table[0])
  }

  /** The position of the first entry for `key`, or -1 when there is none. */
  function FindIndex(table: seq<RouteEntry>, key: Network): (i: int)
    ensures -1 <= i < |table|
    ensures i == -1 <==> forall j :: 0 <= j < |table| ==> Key(table[j]) != key
    ensures i >= 0 ==> Key(table[i]) == key && forall j :: 0 <= j < i ==> Key(table[j]) != key
  {
    if table == [] then -1
    else if Key(table[0]) == key then 0
    else
      var i := FindIndex(table[1..], key);
      assert forall j :: 1 <= j < |table| ==> table[j] == table[1..][j - 1];
      if i == -1 then -1 else i + 1
  }

  /** `update`: when the table has an entry for (address, mask), replace its
      gateway and interface and report true; otherwise report false and leave
      the table as it is. */
  function Update(table: seq<RouteEntry>, address: int32, mask: int32, gateway: int32, iface: Iface): (r: (bool, seq<RouteEntry>))
    ensures r.0 <==> exists j :: 0 <= j < |table| && Key(table[j]) == Network(address, mask)
    ensures !r.0 ==> r.1 == table
    ensures r.0 ==> |r.1| == |table| && RouteEntry(address, mask, gateway, iface) in r.1
    ensures r.0 ==> exists k :: 0 <= k < |table| && Key(table[k]) == Network(address, mask)
                      && r.1 == table[k := RouteEntry(address, mask, gateway, iface)]
  {
    var i := FindIndex(table, Network(address, mask));
    if i == -1 then (false, table)
    else
      var updated := table[i := RouteEntry(address, mask, gateway, iface)];
      assert updated[i] == RouteEntry(address, mask, gateway, iface);
      (true, updated)
  }

  /** `insert`: add an entry for (address, mask), keeping every existing one;
      the table keeps one entry per network when the caller inserts only a
      network it does not hold yet. */
  function Insert(table: seq<RouteEntry>, address: int32, mask: int32, gateway: int32, iface: Iface): (r: seq<RouteEntry>)
    ensures |r| == |table| + 1 && r[..|table|] == table && r[|table|] == RouteEntry(address, mask, gateway, iface)
    ensures UniqueKeys(table) && (forall e :: e in table ==> Key(e) != Network(address, mask)) ==> UniqueKeys(r)
  {
    table + [RouteEntry(address, mask, gateway, iface)]
  }

  /** `update`, falling back to `insert` when `update` finds no entry. */
  function Install(table: seq<RouteEntry>, address: int32, mask: int32, gateway: int32, iface: Iface): seq<RouteEntry>
  {
    var (found, updated) := Update(table, address, mask, gateway, iface);
    if found then updated else Insert(updated, address, mask, gateway, iface)
  }

  /** After installing, the network has the given gateway and interface, every
      entry for another network is kept, nothing else is added, and a table with
      one entry per network still has one entry per network. */
  lemma InstallSpec(table: seq<RouteEntry>, address: int32, mask: int32, gateway: int32, iface: Iface)
    ensures RouteEntry(address, mask, gateway, iface) in Install(table, address, mask, gateway, iface)
    ensures forall e :: e in table && Key(e) != Network(address, mask) ==> e in Install(table, address, mask, gateway, iface)
    ensures forall e :: e in Install(table, address, mask, gateway, iface) && Key(e) != Network(address, mask) ==> e in table
    ensures UniqueKeys(table) ==> UniqueKeys(Install(table, address, mask, gateway, iface))
  {
    var key := Network(address, mask);
    var entry := RouteEntry(address, mask, gateway, iface);
    var r := Install(table, address, mask, gateway, iface);
    var (found, updated) := Update(table, address, mask, gateway, iface);
    if found {
      var k :| 0 <= k < |table| && Key(table[k]) == key && updated == table[k := entry];
      forall e | e in table && Key(e) != key ensures e in r {
        var j :| 0 <= j < |table| && table[j] == e;
        assert r[j] == e;
      }
      if UniqueKeys(table) {
        forall i, j | 0 <= i < j < |r| ensures Key(r[i]) != Key(r[j]) {
          assert Key(r[i]) == Key(table[i]) && Key(r[j]) == Key(table[j]);
        }
      }
    } else {
      assert r == table + [entry];
    }
  }
}
