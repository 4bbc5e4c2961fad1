/**
  The record of used addresses of one host: a ';'-joined string in the store, and the loops of
  pkg/ipam/ipam.go that read and rewrite it. Everything is stated on the list of entries.
 */
module IpamRecord {
  import opened GoStrings
  import opened Options
  import opened InetAddr

  /** The entries a record string stands for: the empty record has none. */
  function Entries(record: string): seq<string> {
    if record == "" then [] else Split(record, ';')
  }

  ghost predicate IsEntry(s: string) {
    s != "" && Free(s, ';')
  }

  ghost predicate AllEntries(parts: seq<string>) {
    forall i :: 0 <= i < |parts| ==> IsEntry(parts[i])
  }

  ghost predicate NoDup<T>(s: seq<T>) {
    forall i, j :: 0 <= i < j < |s| ==> s[i] != s[j]
  }

  /** The elements of ips that known lacks, in order and with repetitions. */
  function Missing(ips: seq<string>, known: seq<string>): seq<string> {
    if ips == [] then []
    else
      var rest := Missing(ips[..|ips| - 1], known);
      var ip := ips[|ips| - 1];
      if ip in known then rest else rest + [ip]
  }

  lemma RecordFromEntries(record: string)
    ensures Join(Entries(record), ';') == record
  {
    JoinSplit(record, ';');
  }

  lemma EntriesOfJoin(parts: seq<string>)
    requires AllEntries(parts)
    ensures Entries(Join(parts, ';')) == parts
  {
    if parts != [] {
      assert IsEntry(parts[0]);
      assert AllFree(parts, ';') by {
        forall i | 0 <= i < |parts| ensures Free(parts[i], ';') { assert IsEntry(parts[i]); }
      }
      JoinNonEmpty(parts, ';');
      SplitJoinFree(parts, ';');
    }
  }

  // ---------------------------------------------------------------- Set.IPs

  /** What the loop of Set.IPs makes of a record: it compares with the entries read at the start only. */
  function Appended(record: string, ips: seq<string>): string {
    if ips == [] then record
    else
      var sofar := Appended(record, ips[..|ips| - 1]);
      var ip := ips[|ips| - 1];
      if sofar == "" then ip
      else if ip in Split(record, ';') then sofar
      else sofar + ";" + ip
  }

  method AppendIPs(record: string, ips: seq<string>) returns (result: string)
    ensures result == Appended(record, ips)
  {
    var used := Split(record, ';');
    result := record;
    for k := 0 to |ips|
      invariant result == Appended(record, ips[..k])
    {
      var ip := ips[k];
      assert ips[..k + 1][..k] == ips[..k];
      if result == "" {
        result := ip;
      } else {
        var flag := true;
        var i := 0;
        while i < |used|
          invariant 0 <= i <= |used|
          invariant flag ==> ip !in used[..i]
          invariant !flag ==> ip in used
        {
          if used[i] == ip {
            flag := false;
            break;
          }
          i := i + 1;
        }
        if flag {
          result := result + ";" + ip;
        }
      }
    }
    assert ips[..|ips|] == ips;
  }

  /** Set.IPs appends exactly the addresses the record lacks. */
  lemma {:induction false} AppendedEntries(record: string, ips: seq<string>)
    requires AllEntries(ips)
    ensures Entries(Appended(record, ips)) == Entries(record) + Missing(ips, Entries(record))
  {
    if ips != [] {
      var init, ip := ips[..|ips| - 1], ips[|ips| - 1];
      assert IsEntry(ip);
      AppendedEntries(record, init);
      var sofar := Appended(record, init);
      if sofar == "" {
        SplitSingle(ip, ';');
        assert Entries(record) == [];
      } else {
        EntriesSnoc(sofar, ip);
        assert record == "" ==> ip !in Split(record, ';');
      }
    }
  }

  lemma EntriesSnoc(record: string, ip: string)
    requires record != "" && Free(ip, ';')
    ensures Entries(record + ";" + ip) == Entries(record) + [ip]
  {
    var parts := Split(record, ';');
    JoinSplit(record, ';');
    JoinSnoc(parts, ip, ';');
    SplitFree(record, ';');
    assert AllFree(parts + [ip], ';');
    SplitJoinFree(parts + [ip], ';');
    assert record + ";" + ip == record + [';'] + ip;
  }

  /**
    A record stays free of duplicates exactly when it was free of them and the new addresses it
    lacks are pairwise different: the loop never compares two new addresses with each other.
   */
  lemma AppendedNoDup(record: string, ips: seq<string>)
    requires AllEntries(ips)
    ensures NoDup(Entries(Appended(record, ips))) <==>
            NoDup(Entries(record)) && NoDup(Missing(ips, Entries(record)))
  {
    hide Entries, Appended, Missing;
    var known, added := Entries(record), Missing(ips, Entries(record));
    AppendedEntries(record, ips);
    MissingIsNew(ips, known);
    NoDupAppend(known, added);
  }

  lemma NoDupAppend<T>(a: seq<T>, b: seq<T>)
    requires forall x :: x in b ==> x !in a
    ensures NoDup(a + b) <==> NoDup(a) && NoDup(b)
  {
    var all := a + b;
    assert forall i :: 0 <= i < |a| ==> a[i] == all[i];
    assert forall i :: 0 <= i < |b| ==> b[i] == all[|a| + i] && b[i] in b;
  }

  lemma AppendTwice(record: string, ip: string)
    requires record != "" && ip !in Split(record, ';')
    ensures Appended(record, [ip, ip]) == record + ";" + ip + ";" + ip
  {
    assert [ip, ip][..1] == [ip] && [ip][..0] == [];
    assert Appended(record, [ip]) == record + ";" + ip;
  }

  /** One new address given twice is recorded twice. */
  lemma DuplicateRecorded()
    ensures Appended("10.1.0.2", ["10.1.0.3", "10.1.0.3"]) == "10.1.0.2;10.1.0.3;10.1.0.3"
    ensures Entries("10.1.0.2;10.1.0.3;10.1.0.3") == ["10.1.0.2", "10.1.0.3", "10.1.0.3"]
  {
    hide Appended, Split;
    var record, ip := "10.1.0.2", "10.1.0.3";
    SplitSingle(record, ';');
    SplitSingle(ip, ';');
    AppendTwice(record, ip);
    assert record + ";" + ip + ";" + ip == "10.1.0.2;10.1.0.3;10.1.0.3";
    EntriesSnoc(record, ip);
    EntriesSnoc(record + ";" + ip, ip);
  }

  lemma {:induction false} MissingIsNew(ips: seq<string>, known: seq<string>)
    ensures forall ip :: ip in Missing(ips, known) <==> ip in ips && ip !in known
  {
    if ips != [] {
      MissingIsNew(ips[..|ips| - 1], known);
      assert ips == ips[..|ips| - 1] + [ips[|ips| - 1]];
    }
  }

  // ------------------------------------------------------------ Release.IPs

  function Released(record: string, ips: seq<string>): string {
    Join(Missing(Split(record, ';'), ips), ';')
  }

  method ReleaseIPs(record: string, ips: seq<string>) returns (result: string)
    ensures result == Released(record, ips)
  {
    var used := Split(record, ';');
    var kept: seq<string> := [];
    for k := 0 to |used|
      invariant kept == Missing(used[..k], ips)
    {
      var flag := false;
      var i := 0;
      while i < |ips|
        invariant 0 <= i <= |ips|
        invariant !flag ==> used[k] !in ips[..i]
        invariant flag ==> used[k] in ips
      {
        if used[k] == ips[i] {
          flag := true;
          break;
        }
        i := i + 1;
      }
      assert used[..k + 1][..k] == used[..k];
      if !flag {
        kept := kept + [used[k]];
      }
    }
    assert used[..|used|] == used;
    result := Join(kept, ';');
  }

  lemma {:induction false} MissingEntries(parts: seq<string>, ips: seq<string>)
    requires AllEntries(parts)
    ensures AllEntries(Missing(parts, ips))
  {
    if parts != [] {
      assert IsEntry(parts[|parts| - 1]);
      MissingEntries(parts[..|parts| - 1], ips);
    }
  }

  /** Release.IPs removes exactly the given addresses; the empty record stays empty. */
  lemma ReleasedEntries(record: string, ips: seq<string>)
    requires AllEntries(Entries(record))
    ensures Entries(Released(record, ips)) == Missing(Entries(record), ips)
  {
    if record == "" {
      assert Split(record, ';') == [""] && [""][..0] == [];
      assert Missing([""], ips) == if "" in ips then [] else [""];
    } else {
      MissingEntries(Entries(record), ips);
      EntriesOfJoin(Missing(Entries(record), ips));
    }
  }

  // ------------------------------------------------- nextUnusedIP, UnusedIP

  function MaxValue(parts: seq<string>): address
    requires parts != []
  {
    var v := InetIP2Int(parts[|parts| - 1]);
    if |parts| == 1 then v
    else
      var m := MaxValue(parts[..|parts| - 1]);
      if v > m then v else m
  }

  lemma {:induction false} MaxValueBounds(parts: seq<string>)
    requires parts != []
    ensures forall i :: 0 <= i < |parts| ==> InetIP2Int(parts[i]) <= MaxValue(parts)
    ensures exists i :: 0 <= i < |parts| && InetIP2Int(parts[i]) == MaxValue(parts)
  {
    hide InetIP2Int, InetInt2Ip;
    if |parts| > 1 {
      var init := parts[..|parts| - 1];
      MaxValueBounds(init);
      var k :| 0 <= k < |init| && InetIP2Int(init[k]) == MaxValue(init);
      assert InetIP2Int(parts[k]) == MaxValue(init) && InetIP2Int(parts[|parts| - 1]) <= MaxValue(parts);
      assert forall i :: 0 <= i < |init| ==> parts[i] == init[i];
    } else {
      assert InetIP2Int(parts[0]) == MaxValue(parts);
    }
  }

  /** The 32-bit value nextUnusedIP proposes: network+2 for an empty record, else maximum+1. */
  function NextValue(network: string, record: string): address {
    if record == "" then (InetIP2Int(network) + 2) % TWO_32
    else (MaxValue(Split(record, ';')) + 1) % TWO_32
  }

  method NextUnusedIP(network: string, record: string) returns (ip: string)
    ensures ip == InetInt2Ip(NextValue(network, record))
  {
    hide InetIP2Int, InetInt2Ip;
    if record == "" {
      ip := InetInt2Ip(InetIP2Int(network) + 2);
      QuadInjective(InetIP2Int(network) + 2, NextValue(network, record));
      return;
    }
    var ips := Split(record, ';');
    var maxIP := GetMaxIP(ips);
    ip := InetInt2Ip(InetIP2Int(maxIP) + 1);
    MaxValueBounds(ips);
    QuadInjective(InetIP2Int(maxIP) + 1, NextValue(network, record));
  }

  predicate IsGatewayIP(ip: string)
    requires ip == "" || |Split(ip, '.')| >= 4
  {
    ip != "" && Split(ip, '.')[3] == "1"
  }

  predicate IsRetainIP(ip: string)
    requires ip == "" || |Split(ip, '.')| >= 4
  {
    ip != "" && Split(ip, '.')[3] == "0"
  }

  lemma ReservedOctet(ip: int)
    ensures |Split(InetInt2Ip(ip), '.')| == 4
    ensures IsGatewayIP(InetInt2Ip(ip)) <==> ip % 256 == 1
    ensures IsRetainIP(InetInt2Ip(ip)) <==> ip % 256 == 0
  {
    LastField(ip);
    QuadText(ip);
    assert Decimal(0) == "0" && Decimal(1) == "1";
  }

  /** The value of the loop in UnusedIP after at most fuel iterations: the address and the new record. */
  function Iterate(network: string, record: string, fuel: nat): Option<(string, string)>
    decreases fuel
  {
    if fuel == 0 then None
    else
      var n := NextValue(network, record);
      var record' := Appended(record, [InetInt2Ip(n)]);
      if n % 256 <= 1 then Iterate(network, record', fuel - 1)
      else Some((InetInt2Ip(n), record'))
  }

  /** The loop comes to an end unless the record already holds 255.255.255.255. */
  predicate CanAllocate(record: string) {
    record == "" || MaxValue(Split(record, ';')) != TWO_32 - 1
  }

  function Markers(n: address): seq<address> {
    if n % 256 == 0 then assert n + 1 < TWO_32; [n, n + 1] else if n % 256 == 1 then [n] else []
  }

  /** The first address from n on whose last octet is neither 0 nor 1. */
  function Usable(n: address): address {
    if n % 256 == 0 then n + 2 else if n % 256 == 1 then n + 1 else n
  }

  function Quads(values: seq<address>): seq<string> {
    seq(|values|, i requires 0 <= i < |values| => InetInt2Ip(values[i]))
  }

  /** Text of a larger value than all entries is none of them. */
  lemma LargerIsNew(parts: seq<string>, n: address)
    requires parts != [] && MaxValue(parts) < n
    ensures InetInt2Ip(n) !in parts
  {
    hide InetIP2Int, InetInt2Ip, MaxValue;
    MaxValueBounds(parts);
    QuadRoundTrip(n);
  }

  lemma NextIsNew(network: string, record: string)
    requires CanAllocate(record)
    ensures InetInt2Ip(NextValue(network, record)) !in Entries(record)
  {
    hide InetIP2Int, InetInt2Ip, Split, MaxValue;
    if record != "" {
      LargerIsNew(Entries(record), NextValue(network, record));
    }
  }

  lemma AppendOne(record: string, ip: string)
    requires IsEntry(ip)
    ensures Entries(Appended(record, [ip])) == if ip in Entries(record) then Entries(record) else Entries(record) + [ip]
  {
    hide Split;
    assert [ip][..0] == [];
    AppendedEntries(record, [ip]);
    assert Missing([], Entries(record)) == [];
  }

  lemma AppendNext(network: string, record: string)
    requires CanAllocate(record)
    ensures var n := NextValue(network, record);
            var record' := Appended(record, [InetInt2Ip(n)]);
            Entries(record') == Entries(record) + [InetInt2Ip(n)]
            && record' != "" && MaxValue(Split(record', ';')) == n
  {
    hide InetIP2Int, InetInt2Ip, ParseQuad, Split, Appended, MaxValue;
    var n := NextValue(network, record);
    QuadText(n);
    QuadRoundTrip(n);
    NextIsNew(network, record);
    AppendOne(record, InetInt2Ip(n));
    MaxValueSnoc(Entries(record), InetInt2Ip(n));
  }

  lemma MaxValueSnoc(parts: seq<string>, ip: string)
    ensures MaxValue(parts + [ip]) ==
            if parts == [] || InetIP2Int(ip) > MaxValue(parts) then InetIP2Int(ip) else MaxValue(parts)
  {
    hide InetIP2Int;
    assert (parts + [ip])[..|parts|] == parts;
  }

  /** One iteration: return, or record the reserved address and go on from the next value. */
  lemma IterateOnce(network: string, record: string, fuel: nat)
    requires CanAllocate(record) && fuel > 0
    ensures var n := NextValue(network, record);
            var record' := Appended(record, [InetInt2Ip(n)]);
            && Entries(record') == Entries(record) + [InetInt2Ip(n)]
            && Iterate(network, record, fuel) ==
               (if n % 256 <= 1 then Iterate(network, record', fuel - 1) else Some((InetInt2Ip(n), record')))
            && (n != TWO_32 - 1 ==> CanAllocate(record') && NextValue(network, record') == n + 1)
  {
    hide InetIP2Int, InetInt2Ip, Split, Appended, MaxValue;
    AppendNext(network, record);
  }

  /** UnusedIP returns within three iterations and records the skipped addresses before the new one. */
  lemma {:induction false} AllocationResult(network: string, record: string, fuel: nat)
    requires CanAllocate(record)
    requires fuel + NextValue(network, record) % 256 >= 3 && fuel >= 1
    ensures var n := NextValue(network, record);
            var out := Iterate(network, record, fuel);
            out.Some? && out.value.0 == InetInt2Ip(Usable(n))
            && Entries(out.value.1) == Entries(record) + Quads(Markers(n) + [Usable(n)])
    decreases fuel
  {
    hide InetIP2Int, InetInt2Ip, Split, Appended, MaxValue, NextValue, Iterate, CanAllocate;
    var n := NextValue(network, record);
    IterateOnce(network, record, fuel);
    var record' := Appended(record, [InetInt2Ip(n)]);
    if n % 256 <= 1 {
      AllocationResult(network, record', fuel - 1);
      assert Markers(n) + [Usable(n)] == [n] + (Markers(n + 1) + [Usable(n + 1)]);
    }
    QuadsCons(n, if n % 256 <= 1 then Markers(n + 1) + [Usable(n + 1)] else []);
    assert n % 256 > 1 ==> Markers(n) + [Usable(n)] == [n] + [];
  }

  lemma QuadsCons(n: address, rest: seq<address>)
    ensures Quads([n] + rest) == [InetInt2Ip(n)] + Quads(rest)
  {
  }

  lemma {:induction false} Diverges(network: string, record: string, fuel: nat)
    requires !CanAllocate(record)
    ensures Iterate(network, record, fuel).None?
    decreases fuel
  {
    hide InetIP2Int, InetInt2Ip, Split, Appended;
    if fuel > 0 {
      var zero := InetInt2Ip(0);
      QuadText(0);
      QuadRoundTrip(0);
      AppendOne(record, zero);
      var record' := Appended(record, [zero]);
      assert Entries(record') == Entries(record) || Entries(record')[..|Entries(record)|] == Entries(record);
      Diverges(network, record', fuel - 1);
    }
  }

  /**
    UnusedIP terminates exactly when the record is empty or its maximum is not 255.255.255.255;
    it then needs at most three iterations and never returns a .0 or .1 address.
   */
  lemma TerminationIff(network: string, record: string)
    ensures (exists fuel: nat :: Iterate(network, record, fuel).Some?) <==> CanAllocate(record)
    ensures CanAllocate(record) ==>
              Iterate(network, record, 3).Some?
              && ParseQuad(Iterate(network, record, 3).value.0).Some?
              && InetIP2Int(Iterate(network, record, 3).value.0) % 256 >= 2
  {
    hide InetIP2Int, InetInt2Ip, Split, ParseQuad;
    if CanAllocate(record) {
      AllocationResult(network, record, 3);
      QuadRoundTrip(Usable(NextValue(network, record)));
    } else {
      forall fuel: nat ensures Iterate(network, record, fuel).None? { Diverges(network, record, fuel); }
    }
  }

  // ------------------------------------------ refinement of integer sequences

  function Encode(values: seq<address>): string {
    Join(Quads(values), ';')
  }

  lemma EncodeEntries(values: seq<address>)
    ensures AllEntries(Quads(values)) && Entries(Encode(values)) == Quads(values)
    ensures Encode(values) == "" <==> values == []
  {
    forall i | 0 <= i < |values| ensures IsEntry(Quads(values)[i]) { QuadText(values[i]); }
    EntriesOfJoin(Quads(values));
  }

  /** The integer view of Release.IPs. */
  function Remove(values: seq<address>, ips: seq<string>): seq<address> {
    if values == [] then []
    else
      var rest := Remove(values[..|values| - 1], ips);
      var v := values[|values| - 1];
      if InetInt2Ip(v) in ips then rest else rest + [v]
  }

  lemma {:induction false} RemoveQuads(values: seq<address>, ips: seq<string>)
    ensures Missing(Quads(values), ips) == Quads(Remove(values, ips))
  {
    if values != [] {
      RemoveQuads(values[..|values| - 1], ips);
      assert Quads(values)[..|values| - 1] == Quads(values[..|values| - 1]);
    }
  }

  lemma ReleaseRefines(values: seq<address>, ips: seq<string>)
    ensures Released(Encode(values), ips) == Encode(Remove(values, ips))
  {
    EncodeEntries(values);
    ReleasedEntries(Encode(values), ips);
    RemoveQuads(values, ips);
    RecordFromEntries(Released(Encode(values), ips));
  }

  /** The integer view of Set.IPs: the new values that are not known, in order and with repetitions. */
  function MissingInts(ips: seq<address>, known: seq<address>): seq<address> {
    if ips == [] then []
    else
      var rest := MissingInts(ips[..|ips| - 1], known);
      var v := ips[|ips| - 1];
      if v in known then rest else rest + [v]
  }

  lemma QuadIn(v: address, values: seq<address>)
    ensures InetInt2Ip(v) in Quads(values) <==> v in values
  {
    hide InetInt2Ip;
    forall i | 0 <= i < |values| ensures Quads(values)[i] == InetInt2Ip(v) <==> values[i] == v {
      QuadInjective(values[i], v);
    }
    if v in values {
      var i :| 0 <= i < |values| && values[i] == v;
      assert Quads(values)[i] == InetInt2Ip(v);
    }
  }

  lemma QuadsAppend(a: seq<address>, b: seq<address>)
    ensures Quads(a + b) == Quads(a) + Quads(b)
  {
  }

  lemma {:induction false} MissingQuads(ips: seq<address>, known: seq<address>)
    ensures Missing(Quads(ips), Quads(known)) == Quads(MissingInts(ips, known))
  {
    hide InetInt2Ip;
    if ips != [] {
      var init, v := ips[..|ips| - 1], ips[|ips| - 1];
      MissingQuads(init, known);
      assert Quads(ips)[..|ips| - 1] == Quads(init);
      QuadIn(v, known);
    }
  }

  /** Appending on the string is appending what the integer sequence lacks, on every sequence. */
  lemma AppendRefines(values: seq<address>, ips: seq<address>)
    ensures Appended(Encode(values), Quads(ips)) == Encode(values + MissingInts(ips, values))
  {
    hide InetInt2Ip, Appended, Entries;
    EncodeEntries(values);
    EncodeEntries(ips);
    AppendedEntries(Encode(values), Quads(ips));
    MissingQuads(ips, values);
    QuadsAppend(values, MissingInts(ips, values));
    RecordFromEntries(Appended(Encode(values), Quads(ips)));
  }

  function MaxInt(values: seq<address>): address
    requires values != []
  {
    var v := values[|values| - 1];
    if |values| == 1 then v
    else
      var m := MaxInt(values[..|values| - 1]);
      if v > m then v else m
  }

  lemma {:induction false} MaxIntBounds(values: seq<address>)
    requires values != []
    ensures MaxInt(values) in values && forall v :: v in values ==> v <= MaxInt(values)
  {
    if |values| > 1 {
      var init := values[..|values| - 1];
      MaxIntBounds(init);
      assert values == init + [values[|values| - 1]];
    }
  }

  lemma {:induction false} MaxOfQuads(values: seq<address>)
    requires values != []
    ensures MaxValue(Quads(values)) == MaxInt(values)
  {
    hide InetIP2Int, InetInt2Ip, ParseQuad;
    var init, v := values[..|values| - 1], values[|values| - 1];
    QuadRoundTrip(v);
    if |values| > 1 {
      MaxOfQuads(init);
      assert Quads(values)[..|values| - 1] == Quads(init);
    }
  }

  /** The integer view of nextUnusedIP. */
  function NextInt(network: address, values: seq<address>): address {
    if values == [] then (network + 2) % TWO_32 else (MaxInt(values) + 1) % TWO_32
  }

  ghost predicate Increasing(values: seq<address>) {
    forall i, j :: 0 <= i < j < |values| ==> values[i] < values[j]
  }

  /** The maximum of an increasing record is its last element. */
  lemma NextOfIncreasing(network: address, values: seq<address>)
    requires Increasing(values) && values != []
    ensures NextInt(network, values) == (values[|values| - 1] + 1) % TWO_32
    ensures forall v :: v in values ==> v <= values[|values| - 1]
  {
    MaxIntBounds(values);
  }

  /** Proposing on the string is network+2 or maximum+1 on the integers, in whatever order they are recorded. */
  lemma NextRefines(network: address, values: seq<address>)
    ensures NextValue(InetInt2Ip(network), Encode(values)) == NextInt(network, values)
    ensures CanAllocate(Encode(values)) <==> TWO_32 - 1 !in values
  {
    hide InetIP2Int, InetInt2Ip, Split, MaxValue, Join, MaxInt;
    EncodeEntries(values);
    QuadRoundTrip(network);
    if values != [] {
      MaxOfQuads(values);
      MaxIntBounds(values);
    }
  }

  /** What UnusedIP does to a record of integers. */
  function Allocated(network: address, values: seq<address>): seq<address> {
    var n := NextInt(network, values);
    values + Markers(n) + [Usable(n)]
  }

  /** The string loop computes the same address and the same record as the integer function. */
  lemma AllocationRefines(network: address, values: seq<address>)
    requires TWO_32 - 1 !in values
    ensures Iterate(InetInt2Ip(network), Encode(values), 3) ==
            Some((InetInt2Ip(Usable(NextInt(network, values))), Encode(Allocated(network, values))))
  {
    hide InetIP2Int, InetInt2Ip, Split, Join, NextValue, Iterate, CanAllocate, NextInt, Markers;
    NextRefines(network, values);
    EncodeEntries(values);
    AllocationResult(InetInt2Ip(network), Encode(values), 3);
    var n := NextInt(network, values);
    var record' := Iterate(InetInt2Ip(network), Encode(values), 3).value.1;
    assert Quads(values) + Quads(Markers(n) + [Usable(n)]) == Quads(Allocated(network, values));
    RecordFromEntries(record');
  }

  lemma AllocationIncreases(network: address, values: seq<address>)
    requires Increasing(values) && TWO_32 - 1 !in values
    ensures Increasing(Allocated(network, values))
  {
    if values != [] {
      hide MaxInt;
      NextOfIncreasing(network, values);
      var last := values[|values| - 1];
      assert last in values && NextInt(network, values) == last + 1;
    }
  }
}
