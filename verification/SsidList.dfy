/** Merging a Wi-Fi scan into the list of known networks. */
module SsidList {

  /** One entry of a scan result. */
  datatype Network = Network(ssid: string, rssi: int)

  /** `constrain((100 + rssi) * 2, 0, 100)`. */
  function Quality(rssi: int): (q: int)
    ensures 0 <= q <= 100
    ensures rssi == -100 ==> q == 0
    ensures rssi == -50 ==> q == 100
  {
    var q := (100 + rssi) * 2;
    if q < 0 then 0 else if q > 100 then 100 else q
  }

  /** From -100 dBm to -50 dBm the quality rises by two points per dBm; outside it stays at the ends. */
  lemma QualityScale(rssi: int)
    ensures Quality(rssi + 1) - Quality(rssi) == if -100 <= rssi < -50 then 2 else 0
  {
  }

  ghost predicate Distinct(names: seq<string>) {
    forall i, j :: 0 <= i < j < |names| ==> names[i] != names[j]
  }

  ghost predicate Seen(scan: seq<Network>, name: string) {
    exists i :: 0 <= i < |scan| && scan[i].ssid == name
  }

  /** `q` is the best quality at which `name` occurs in `scan`. */
  ghost predicate BestQuality(scan: seq<Network>, name: string, q: int) {
    && (exists i :: 0 <= i < |scan| && scan[i].ssid == name && Quality(scan[i].rssi) == q)
    && (forall i :: 0 <= i < |scan| && scan[i].ssid == name ==> Quality(scan[i].rssi) <= q)
  }

  /** `std::find`: the first position of `name`, or the length. */
  method Find(names: seq<string>, name: string) returns (index: nat)
    ensures index <= |names| && (index < |names| ==> names[index] == name)
    ensures forall j :: 0 <= j < index ==> names[j] != name
  {
    index := 0;
    while index < |names| && names[index] != name
      invariant 0 <= index <= |names|
      invariant forall j :: 0 <= j < index ==> names[j] != name
    {
      index := index + 1;
    }
  }

  /** What merging `scan` into the lists `ssids0`, `rssis0` must give. */
  ghost predicate Merged(ssids0: seq<string>, rssis0: seq<int>, scan: seq<Network>, ssids: seq<string>, rssis: seq<int>)
    requires |ssids0| == |rssis0|
  {
    && |ssids| == |rssis| && Distinct(ssids)
    && ssids0 <= ssids
    && (forall i :: 0 <= i < |scan| ==> scan[i].ssid in ssids)
    && (forall j :: |ssids0| <= j < |ssids| ==> Seen(scan, ssids[j]))
    && (forall j :: 0 <= j < |ssids| && Seen(scan, ssids[j]) ==> BestQuality(scan, ssids[j], rssis[j]))
    && (forall j :: 0 <= j < |ssids0| && !Seen(scan, ssids[j]) ==> rssis[j] == rssis0[j])
  }

  /** The temporary lists of the loop: every network of this scan, once, with its best quality so far. */
  ghost predicate Tally(scan: seq<Network>, names: seq<string>, qualities: seq<int>) {
    && |names| == |qualities| && Distinct(names)
    && (forall k :: 0 <= k < |names| ==> BestQuality(scan, names[k], qualities[k]))
    && (forall i :: 0 <= i < |scan| ==> scan[i].ssid in names)
  }

  lemma SeenExtends(scan: seq<Network>, n: Network, name: string)
    ensures Seen(scan + [n], name) <==> Seen(scan, name) || n.ssid == name
  {
    var all := scan + [n];
    assert all[|scan|] == n;
    if Seen(scan, name) {
      var i :| 0 <= i < |scan| && scan[i].ssid == name;
      assert all[i].ssid == name;
    }
  }

  /** An entry that is no improvement leaves the best quality alone ... */
  lemma BestQualityStays(scan: seq<Network>, n: Network, name: string, q: int)
    requires BestQuality(scan, name, q) && (n.ssid == name ==> Quality(n.rssi) <= q)
    ensures BestQuality(scan + [n], name, q)
  {
    var i :| 0 <= i < |scan| && scan[i].ssid == name && Quality(scan[i].rssi) == q;
    assert (scan + [n])[i].ssid == name;
  }

  /** ... and one that is becomes it. */
  lemma BestQualityImproves(scan: seq<Network>, n: Network)
    requires forall i :: 0 <= i < |scan| && scan[i].ssid == n.ssid ==> Quality(scan[i].rssi) <= Quality(n.rssi)
    ensures BestQuality(scan + [n], n.ssid, Quality(n.rssi))
  {
    assert (scan + [n])[|scan|] == n;
  }

  /** The lists after one more entry: `ssids'`, `rssis'` extend the merge if `q` is the entry's new best. */
  lemma MergeStep(ssids0: seq<string>, rssis0: seq<int>, scan: seq<Network>, ssids: seq<string>, rssis: seq<int>,
                  n: Network, index: nat, q: int, ssids': seq<string>, rssis': seq<int>)
    requires |ssids0| == |rssis0| && Merged(ssids0, rssis0, scan, ssids, rssis)
    requires index <= |ssids| && BestQuality(scan + [n], n.ssid, q)
    requires if index == |ssids| then n.ssid !in ssids && ssids' == ssids + [n.ssid] && rssis' == rssis + [q]
             else ssids[index] == n.ssid && ssids' == ssids && rssis' == rssis[index := q]
    ensures Merged(ssids0, rssis0, scan + [n], ssids', rssis')
  {
    assert ssids'[index] == n.ssid && rssis'[index] == q;
    forall j | 0 <= j < |ssids'|
      ensures Seen(scan + [n], ssids'[j]) <==> Seen(scan, ssids'[j]) || j == index
      ensures Seen(scan + [n], ssids'[j]) ==> BestQuality(scan + [n], ssids'[j], rssis'[j])
    {
      SeenExtends(scan, n, ssids'[j]);
      if j != index {
        assert ssids'[j] == ssids[j] != n.ssid && rssis'[j] == rssis[j];
        if Seen(scan, ssids[j]) { BestQualityStays(scan, n, ssids[j], rssis[j]); }
      }
    }
    forall i | 0 <= i < |scan + [n]|
      ensures (scan + [n])[i].ssid in ssids'
    {
      if i < |scan| { assert scan[i].ssid in ssids; } else { assert n.ssid == ssids'[index]; }
    }
  }

  lemma TallyStep(scan: seq<Network>, names: seq<string>, qualities: seq<int>, n: Network, index: nat, q: int,
                  names': seq<string>, qualities': seq<int>)
    requires Tally(scan, names, qualities)
    requires index <= |names| && BestQuality(scan + [n], n.ssid, q)
    requires if index == |names| then n.ssid !in names && names' == names + [n.ssid] && qualities' == qualities + [q]
             else names[index] == n.ssid && names' == names && qualities' == qualities[index := q]
    ensures Tally(scan + [n], names', qualities')
  {
    assert names'[index] == n.ssid && qualities'[index] == q;
    forall k | 0 <= k < |names'|
      ensures BestQuality(scan + [n], names'[k], qualities'[k])
    {
      if k != index {
        assert names'[k] == names[k] != n.ssid && qualities'[k] == qualities[k];
        BestQualityStays(scan, n, names[k], qualities[k]);
      }
    }
    forall i | 0 <= i < |scan + [n]|
      ensures (scan + [n])[i].ssid in names'
    {
      if i < |scan| { assert scan[i].ssid in names; } else { assert n.ssid == names'[index]; }
    }
  }

  /** What the loop finds in its lists decides the new best quality of the entry. */
  lemma NewBest(scan: seq<Network>, names: seq<string>, qualities: seq<int>, n: Network, index: nat)
    requires Tally(scan, names, qualities) && index <= |names|
    requires if index == |names| then n.ssid !in names else names[index] == n.ssid
    ensures var q := Quality(n.rssi);
      BestQuality(scan + [n], n.ssid, if index < |names| && qualities[index] >= q then qualities[index] else q)
  {
    if index == |names| {
      forall i | 0 <= i < |scan|
        ensures scan[i].ssid != n.ssid
      {
        assert scan[i].ssid in names;
      }
      BestQualityImproves(scan, n);
    } else if qualities[index] >= Quality(n.rssi) {
      BestQualityStays(scan, n, n.ssid, qualities[index]);
    } else {
      BestQualityImproves(scan, n);
    }
  }

  /** A network tallied in this scan is listed, with the tallied quality. */
  lemma KnownQuality(ssids0: seq<string>, rssis0: seq<int>, scan: seq<Network>, ssids: seq<string>, rssis: seq<int>,
                     names: seq<string>, qualities: seq<int>, index: nat, index2: nat)
    requires |ssids0| == |rssis0| && Merged(ssids0, rssis0, scan, ssids, rssis) && Tally(scan, names, qualities)
    requires index <= |ssids| && index2 <= |names|
    requires index < |ssids| && index2 < |names| ==> ssids[index] == names[index2]
    requires index == |ssids| && index2 < |names| ==> names[index2] !in ssids
    ensures index2 < |names| ==> index < |ssids| && rssis[index] == qualities[index2]
  {
    if index2 < |names| {
      var i :| 0 <= i < |scan| && scan[i].ssid == names[index2];
      assert scan[i].ssid in ssids;
      assert Seen(scan, ssids[index]);
      BestQualityUnique(scan, ssids[index], rssis[index], qualities[index2]);
    }
  }

  lemma BestQualityUnique(scan: seq<Network>, name: string, p: int, q: int)
    requires BestQuality(scan, name, p) && BestQuality(scan, name, q)
    ensures p == q
  {
  }

  class WifiList {
    var ssidList: seq<string>
    var rssiList: seq<int>

    ghost predicate Valid()
      reads this
    {
      |ssidList| == |rssiList| && Distinct(ssidList)
    }

    constructor ()
      ensures Valid() && ssidList == []
    {
      ssidList, rssiList := [], [];
    }

    /** The loop body of `createSsidList`, with the local lists passed in and out. */
    method MergeNetwork(n: Network, tmpSsidList: seq<string>, tmpRssiList: seq<int>,
                        ghost ssids0: seq<string>, ghost rssis0: seq<int>, ghost scan: seq<Network>)
      returns (tmpSsidList': seq<string>, tmpRssiList': seq<int>)
      requires |ssids0| == |rssis0| && Merged(ssids0, rssis0, scan, ssidList, rssiList)
      requires Tally(scan, tmpSsidList, tmpRssiList)
      modifies this
      ensures Merged(ssids0, rssis0, scan + [n], ssidList, rssiList)
      ensures Tally(scan + [n], tmpSsidList', tmpRssiList')
    {
      var ssid, rssi := n.ssid, Quality(n.rssi);
      ghost var ssids, rssis := ssidList, rssiList;
      tmpSsidList', tmpRssiList' := tmpSsidList, tmpRssiList;
      var index := Find(ssidList, ssid);
      var index2 := Find(tmpSsidList, ssid);
      NewBest(scan, tmpSsidList, tmpRssiList, n, index2);
      KnownQuality(ssids0, rssis0, scan, ssids, rssis, tmpSsidList, tmpRssiList, index, index2);
      if index == |ssidList| {
        ssidList := ssidList + [ssid];
        rssiList := rssiList + [rssi];
        tmpSsidList' := tmpSsidList + [ssid];
        tmpRssiList' := tmpRssiList + [rssi];
      } else if index2 == |tmpSsidList| {
        tmpSsidList' := tmpSsidList + [ssid];
        tmpRssiList' := tmpRssiList + [rssi];
        rssiList := rssiList[index := rssi];
      } else {
        if tmpRssiList[index2] < rssi {
          tmpRssiList' := tmpRssiList[index2 := rssi];
          rssiList := rssiList[index := rssi];
        }
      }
      ghost var q := if index2 < |tmpSsidList| && tmpRssiList[index2] >= rssi then tmpRssiList[index2] else rssi;
      MergeStep(ssids0, rssis0, scan, ssids, rssis, n, index, q, ssidList, rssiList);
      TallyStep(scan, tmpSsidList, tmpRssiList, n, index2, q, tmpSsidList', tmpRssiList');
    }

    /** `createSsidList`; a scan that failed or still runs counts as empty. */
    method CreateSsidList(scan: seq<Network>)
      requires Valid()
      modifies this
      ensures Valid() && Merged(old(ssidList), old(rssiList), scan, ssidList, rssiList)
    {
      var tmpSsidList: seq<string>, tmpRssiList: seq<int> := [], [];
      var i := 0;
      while i < |scan|
        invariant 0 <= i <= |scan|
        invariant Merged(old(ssidList), old(rssiList), scan[..i], ssidList, rssiList)
        invariant Tally(scan[..i], tmpSsidList, tmpRssiList)
      {
        tmpSsidList, tmpRssiList :=
          MergeNetwork(scan[i], tmpSsidList, tmpRssiList, old(ssidList), old(rssiList), scan[..i]);
        assert scan[..i + 1] == scan[..i] + [scan[i]];
        i := i + 1;
      }
      assert scan[..i] == scan;
    }
  }
}
