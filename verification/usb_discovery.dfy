/**
 * Device discovery of NXTCommUSB: `find` turns the native address strings into descriptors,
 * `getName` asks a device for its name, and `search` filters the descriptors by name and
 * lists the named devices before the unnamed ones.
 */
module UsbDiscovery {
  import opened Bytes
  import opened Results
  import opened Devices
  import opened UsbAddress

  const VENDOR_ATMEL: string := "0x03EB"
  const PRODUCT_SAMBA: string := "0x6124"
  /** The name given to an NXT running the SAM-BA boot ROM. */
  const SAMBA_NXT_NAME: string := "%%NXT-SAMBA%%"
  /** The serial number of a device that does not report one. */
  const NO_SERIAL: string := "000000000000"
  const UNKNOWN: string := "Unknown"

  /** The NullPointerException `find` raises when an address lacks the vendor (or product) field it compares. */
  datatype FindError = MissingField(addr: string)

  /** A Samba device: vendor field 2 and product field 3 name the Atmel boot ROM. */
  predicate IsSamba(addr: string)
  {
    GetAddressString(addr, 2) == Some(VENDOR_ATMEL) && GetAddressString(addr, 3) == Some(PRODUCT_SAMBA)
  }

  /** The serial number, second field from the end, unless it is missing or blank. */
  predicate HasSerial(addr: string)
  {
    var a := GetAddressString(addr, -2);
    a.Some? && a.value != NO_SERIAL
  }

  /** Whether `find` can inspect the address without dereferencing a missing field. */
  predicate Inspectable(addr: string)
  {
    var vendor := GetAddressString(addr, 2);
    vendor.Some? && (vendor.value == VENDOR_ATMEL ==> GetAddressString(addr, 3).Some?)
  }

  /** The addresses `find` keeps, in order. */
  function KeptAddresses(names: seq<string>): seq<string>
  {
    if |names| == 0 then []
    else (if HasSerial(names[0]) then [names[0]] else []) + KeptAddresses(names[1..])
  }

  /**
   * The descriptor `find` builds for an address with a serial number: a USB device whose
   * resource is the address, whose address is the serial, and which is named only when it is
   * a SAM-BA device.
   */
  predicate Describes(d: NxtInfo, addr: string)
  {
    d.protocol == USB && d.resource == Some(addr) && HasSerial(addr)
    && d.address == GetAddressString(addr, -2)
    && (d.name == Some(SAMBA_NXT_NAME) <==> IsSamba(addr))
    && (d.name.Some? ==> d.name == Some(SAMBA_NXT_NAME))
  }

  /** find: one USB descriptor per address that carries a serial number. */
  function Find(names: seq<string>): (r: Result<seq<NxtInfo>, FindError>)
    ensures r.Ok? <==> forall i :: 0 <= i < |names| ==> Inspectable(names[i])
    ensures r.Ok? ==> DescribesEach(r.value, KeptAddresses(names))
  {
    if |names| == 0 then Ok([])
    else
      var addr := names[0];
      if !Inspectable(addr) then Err(MissingField(addr))
      else
        var rest :- Find(names[1..]);
        var info := NxtInfo(if IsSamba(addr) then Some(SAMBA_NXT_NAME) else None,
                            GetAddressString(addr, -2), USB, Some(addr));
        var head := if HasSerial(addr) then [info] else [];
        assert DescribesEach(head, if HasSerial(addr) then [addr] else []);
        DescribesConcat(head, if HasSerial(addr) then [addr] else [], rest, KeptAddresses(names[1..]));
        Ok(head + rest)
  }

  /** Descriptors paired one to one, in order, with the addresses they describe. */
  predicate DescribesEach(ds: seq<NxtInfo>, addrs: seq<string>)
  {
    |ds| == |addrs| && forall i :: 0 <= i < |ds| ==> Describes(ds[i], addrs[i])
  }

  lemma DescribesConcat(ds: seq<NxtInfo>, addrs: seq<string>, es: seq<NxtInfo>, brs: seq<string>)
    requires DescribesEach(ds, addrs) && DescribesEach(es, brs)
    ensures DescribesEach(ds + es, addrs + brs)
  {
    forall i | 0 <= i < |ds + es|
      ensures Describes((ds + es)[i], (addrs + brs)[i])
    {
      if i >= |ds| {
        assert (ds + es)[i] == es[i - |ds|] && (addrs + brs)[i] == brs[i - |ds|];
      }
    }
  }

  // ---------------------------------------------------------------------------------------
  // getName

  /** Java's (char) of a signed byte: negative bytes sign-extend into the 0xFF00 block. */
  function CharOfByte(b: Byte): (c: char)
    ensures b < 0x80 ==> c as int == b
    ensures b >= 0x80 ==> c as int == b + 0xFF00
  {
    if b < 0x80 then b as char else (b + 0xFF00) as char
  }

  /** The name in the name field of a GET_DEVICE_INFO reply: its bytes up to the first zero byte. */
  function NameOf(field: seq<Byte>): (r: string)
    ensures |r| <= |field|
    ensures forall i :: 0 <= i < |r| ==> field[i] != 0 && r[i] == CharOfByte(field[i])
    ensures |r| < |field| ==> field[|r|] == 0
  {
    if |field| == 0 || field[0] == 0 then [] else [CharOfByte(field[0])] + NameOf(field[1..])
  }

  /**
   * getName: `reachable` is whether devOpen succeeded, `wrote` what devWrite returned for the
   * request, `reply` the bytes devRead delivered (negative results deliver none).
   */
  function GetName(reachable: bool, wrote: int, reply: seq<Byte>): (r: Option<string>)
    ensures r.Some? <==> reachable && wrote > 0 && |reply| >= 33
    ensures r.Some? ==> r.value == NameOf(reply[3..18])
  {
    if !reachable || wrote <= 0 || |reply| < 33 then None
    else Some(NameOf(reply[3..18]))
  }

  // ---------------------------------------------------------------------------------------
  // search

  /**
   * The first pass of search over one device: a missing address becomes the blank serial,
   * a missing name is asked from the device (`probed`).
   */
  function Prepare(d: NxtInfo, probed: Option<string>): (r: NxtInfo)
    ensures r.address.Some? && r.protocol == d.protocol && r.resource == d.resource
    ensures d.name.Some? ==> r.name == d.name
  {
    d.(address := if d.address.None? then Some(NO_SERIAL) else d.address,
       name := if d.name.Some? then d.name else probed)
  }

  /** Whether the name filter lets a prepared device through. */
  predicate Passes(filter: Option<string>, d: NxtInfo)
  {
    filter.None? || (d.name.Some? && d.name == filter)
  }

  /** The devices the first pass keeps, in order. */
  function Kept(devs: seq<NxtInfo>, probed: seq<Option<string>>, filter: Option<string>): (r: seq<NxtInfo>)
    requires |probed| == |devs|
    ensures |r| <= |devs|
    ensures forall d :: d in r ==> Passes(filter, d) && d.address.Some?
  {
    if |devs| == 0 then []
    else
      var d := Prepare(devs[0], probed[0]);
      (if Passes(filter, d) then [d] else []) + Kept(devs[1..], probed[1..], filter)
  }

  /** The named devices of a list, in order. */
  function NamedOf(s: seq<NxtInfo>): seq<NxtInfo>
  {
    if |s| == 0 then [] else NamedOf(s[..|s| - 1]) + (if s[|s| - 1].name.Some? then [s[|s| - 1]] else [])
  }

  /** The unnamed devices of a list, in order, renamed "Unknown". */
  function UnknownOf(s: seq<NxtInfo>): seq<NxtInfo>
  {
    if |s| == 0 then [] else UnknownOf(s[..|s| - 1]) + (if s[|s| - 1].name.None? then [s[|s| - 1].(name := Some(UNKNOWN))] else [])
  }

  /** Each device as search reports it: its own name, or "Unknown". */
  function Labelled(s: seq<NxtInfo>): seq<NxtInfo>
  {
    if |s| == 0 then [] else Labelled(s[..|s| - 1]) + [if s[|s| - 1].name.Some? then s[|s| - 1] else s[|s| - 1].(name := Some(UNKNOWN))]
  }

  lemma {:induction false} PartitionSizes(s: seq<NxtInfo>)
    ensures |NamedOf(s)| + |UnknownOf(s)| == |s|
  {
    if |s| > 0 { PartitionSizes(s[..|s| - 1]); }
  }

  /**
   * search: the devices that pass the name filter, the named ones first and the unnamed ones
   * after them renamed "Unknown", each group in discovery order.
   */
  method Search(devs: seq<NxtInfo>, probed: seq<Option<string>>, filter: Option<string>) returns (r: seq<NxtInfo>)
    requires |probed| == |devs|
    ensures |r| == |Kept(devs, probed, filter)|
    ensures r == NamedOf(Kept(devs, probed, filter)) + UnknownOf(Kept(devs, probed, filter))
  {
    r := Arrange(Kept(devs, probed, filter));
  }

  /** The second pass of search: named devices to the front, renamed unnamed ones after them. */
  method Arrange(kept: seq<NxtInfo>) returns (r: seq<NxtInfo>)
    ensures |r| == |kept|
    ensures r == NamedOf(kept) + UnknownOf(kept)
  {
    var nameCnt := |NamedOf(kept)|;
    PartitionSizes(kept);
    var nxts: seq<NxtInfo> := seq(|kept|, _ => NxtInfo(None, None, 0, None));
    var named: nat := 0;
    var unnamed: nat := nameCnt;
    var i := 0;
    while i < |kept|
      invariant ArrangedSoFar(kept, nxts, i, named, unnamed)
    {
      var d := kept[i];
      if d.name.None? {
        PlaceUnknown(kept, nxts, i, named, unnamed);
        nxts := nxts[unnamed := d.(name := Some(UNKNOWN))];
        unnamed := unnamed + 1;
      } else {
        PlaceNamed(kept, nxts, i, named, unnamed);
        nxts := nxts[named := d];
        named := named + 1;
      }
      i := i + 1;
    }
    assert kept[..i] == kept;
    r := nxts;
    assert r == r[..named] + r[nameCnt..];
  }

  /**
   * The loop state of the arrangement after the first i devices: the named ones fill the
   * front in order, the unnamed ones (labelled) fill the slots from the named count on.
   */
  predicate ArrangedSoFar(kept: seq<NxtInfo>, nxts: seq<NxtInfo>, i: nat, named: nat, unnamed: nat)
  {
    var nameCnt := |NamedOf(kept)|;
    i <= |kept| && |nxts| == |kept|
    && named == |NamedOf(kept[..i])| && unnamed == nameCnt + |UnknownOf(kept[..i])|
    && named <= nameCnt <= unnamed <= |kept|
    && nxts[..named] == NamedOf(kept[..i])
    && nxts[nameCnt..unnamed] == UnknownOf(kept[..i])
  }

  /** An unnamed device goes, labelled, into the next slot after the named ones. */
  lemma PlaceUnknown(kept: seq<NxtInfo>, nxts: seq<NxtInfo>, i: nat, named: nat, unnamed: nat)
    requires ArrangedSoFar(kept, nxts, i, named, unnamed) && i < |kept| && kept[i].name.None?
    ensures unnamed < |nxts|
    ensures ArrangedSoFar(kept, nxts[unnamed := kept[i].(name := Some(UNKNOWN))], i + 1, named, unnamed + 1)
  {
    PartitionSizes(kept);
    NamedPrefixBound(kept, i + 1);
    PrefixStep(kept, i);
    var x := kept[i].(name := Some(UNKNOWN));
    UpdateOutside(nxts, 0, named, unnamed, x);
    UpdateAppends(nxts, |NamedOf(kept)|, unnamed, x);
  }

  /** A named device goes into the next slot at the front. */
  lemma PlaceNamed(kept: seq<NxtInfo>, nxts: seq<NxtInfo>, i: nat, named: nat, unnamed: nat)
    requires ArrangedSoFar(kept, nxts, i, named, unnamed) && i < |kept| && kept[i].name.Some?
    ensures named < |NamedOf(kept)|
    ensures ArrangedSoFar(kept, nxts[named := kept[i]], i + 1, named + 1, unnamed)
  {
    PartitionSizes(kept);
    NamedPrefixBound(kept, i + 1);
    PrefixStep(kept, i);
    UpdateOutside(nxts, |NamedOf(kept)|, unnamed, named, kept[i]);
    UpdateAppends(nxts, 0, named, kept[i]);
  }

  lemma PrefixStep(s: seq<NxtInfo>, i: nat)
    requires i < |s|
    ensures NamedOf(s[..i + 1]) == NamedOf(s[..i]) + (if s[i].name.Some? then [s[i]] else [])
    ensures UnknownOf(s[..i + 1]) == UnknownOf(s[..i]) + (if s[i].name.None? then [s[i].(name := Some(UNKNOWN))] else [])
  {
    assert s[..i + 1][..i] == s[..i];
  }

  lemma UpdateOutside<T>(a: seq<T>, lo: nat, hi: nat, k: nat, x: T)
    requires lo <= hi <= |a| && k < |a| && (k < lo || hi <= k)
    ensures a[k := x][lo..hi] == a[lo..hi]
  {
  }

  lemma UpdateAppends<T>(a: seq<T>, lo: nat, k: nat, x: T)
    requires lo <= k < |a|
    ensures a[k := x][lo..k + 1] == a[lo..k] + [x]
  {
  }

  /** The named devices of a prefix are no more than those of the whole list, and likewise the unnamed ones. */
  lemma {:induction false} NamedPrefixBound(s: seq<NxtInfo>, n: nat)
    requires n <= |s|
    ensures |NamedOf(s[..n])| <= |NamedOf(s)| && |UnknownOf(s[..n])| <= |UnknownOf(s)|
    decreases |s| - n
  {
    if n < |s| {
      NamedPrefixBound(s, n + 1);
      assert s[..n + 1][..n] == s[..n];
    } else {
      assert s[..n] == s;
    }
  }

  /** Arranging the devices only reorders them: it is a permutation of the devices labelled. */
  lemma {:induction false} ArrangePermutes(s: seq<NxtInfo>)
    ensures multiset(NamedOf(s) + UnknownOf(s)) == multiset(Labelled(s))
  {
    if |s| > 0 {
      var init := s[..|s| - 1];
      ArrangePermutes(init);
    }
  }

  /**
   * What search reports: every device it lists has a name and an address, a name filter lets
   * only exactly that name through (so no device is then renamed "Unknown"), and the list is
   * a reordering of the devices that passed, labelled.
   */
  lemma SearchReport(devs: seq<NxtInfo>, probed: seq<Option<string>>, filter: Option<string>)
    requires |probed| == |devs|
    ensures var kept := Kept(devs, probed, filter);
            var r := NamedOf(kept) + UnknownOf(kept);
            multiset(r) == multiset(Labelled(kept))
            && (forall i :: 0 <= i < |r| ==> r[i].name.Some? && r[i].address.Some?)
            && (filter.Some? ==> forall i :: 0 <= i < |r| ==> r[i].name == filter)
  {
    var kept := Kept(devs, probed, filter);
    ArrangePermutes(kept);
    var r := NamedOf(kept) + UnknownOf(kept);
    GroupMembers(kept);
    forall i | 0 <= i < |r|
      ensures r[i].name.Some? && r[i].address.Some?
    {
      GroupMembers(kept);
      if i < |NamedOf(kept)| {
        assert r[i] in NamedOf(kept);
      } else {
        assert r[i] in UnknownOf(kept);
      }
    }
  }

  /** The named group holds named devices of the list; the unnamed group holds "Unknown" devices with the list's addresses. */
  lemma {:induction false} GroupMembers(s: seq<NxtInfo>)
    ensures forall d :: d in NamedOf(s) ==> d in s && d.name.Some?
    ensures forall d :: d in UnknownOf(s) ==> d.name == Some(UNKNOWN) && exists e :: e in s && e.address == d.address
    ensures (forall d :: d in s ==> d.name.Some?) ==> UnknownOf(s) == []
  {
    if |s| > 0 {
      assert forall d :: d in s[..|s| - 1] ==> d in s;
      GroupMembers(s[..|s| - 1]);
    }
  }
}
