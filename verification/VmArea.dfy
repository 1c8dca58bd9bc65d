/** Areas of virtual addresses and the two ways to compare them. */
module VmArea {
  import opened RbHeap
  import opened RbOrder
  import opened Slist

  /** Addresses and lengths are 32 bits wide. */
  const WORD := 0x1_0000_0000

  datatype AreaInfo = AreaInfo(base: nat, length: nat)

  class Area {
    const info: AreaInfo
    const link: SlistRef<AreaInfo>
    var rb: RbNode?<Area>

    constructor (base: nat, length: nat)
      ensures info == AreaInfo(base, length) && link.elem == info && fresh(link)
      ensures rb != null && rb.data == this && fresh(rb)
    {
      info := AreaInfo(base, length);
      link := new SlistRef(AreaInfo(base, length));
      rb := null;
      new;
      rb := new RbNode(this);
    }
  }

  function CompareAreas(x: Area, y: Area): int {
    if x.info.base < y.info.base then -1 else if x.info.base > y.info.base then 1 else 0
  }

  /** The address of the last byte, computed in 32 bits. */
  function LastAddress(a: AreaInfo): nat {
    (a.base + a.length + WORD - 1) % WORD
  }

  /** What the comparison of two areas asserts about them. */
  predicate CompareAreasAsserts(x: AreaInfo, y: AreaInfo) {
    && (x.base < y.base ==> LastAddress(x) < y.base)
    && (x.base > y.base ==> LastAddress(y) < x.base)
  }

  function CompareAreaToAddress(a: Area, address: nat): int {
    if address < a.info.base then 1 else if address <= LastAddress(a.info) then 0 else -1
  }

  /** The area holds at least one byte and ends within the address space. */
  predicate Fits(a: AreaInfo) {
    a.length > 0 && a.base + a.length <= WORD
  }

  predicate Contains(a: AreaInfo, address: nat) {
    a.base <= address < a.base + a.length
  }

  /** Fitting means just that all its bytes have addresses. */
  lemma FitsInside(a: AreaInfo)
    ensures Fits(a) <==> a.length > 0 && forall x: nat :: Contains(a, x) ==> x < WORD
  {
    if a.length > 0 {
      assert Contains(a, a.base + a.length - 1);
    }
  }

  predicate Apart(a: AreaInfo, b: AreaInfo) {
    a.base + a.length <= b.base || b.base + b.length <= a.base
  }

  /** Strictly ascending and non-overlapping. */
  ghost predicate Ascending(s: seq<AreaInfo>) {
    && (forall i :: 0 <= i < |s| ==> Fits(s[i]))
    && (forall i, j :: 0 <= i < j < |s| ==> s[i].base + s[i].length <= s[j].base)
  }

  ghost function Infos(s: seq<RbNode<Area>>): (r: seq<AreaInfo>)
    ensures |r| == |s| && forall i :: 0 <= i < |s| ==> r[i] == s[i].data.info
  {
    seq(|s|, i requires 0 <= i < |s| => s[i].data.info)
  }

  /** Comparing areas that are apart never trips the assertions in the comparison. */
  lemma ApartPassesAsserts(x: AreaInfo, y: AreaInfo)
    requires Fits(x) && Fits(y)
    ensures CompareAreasAsserts(x, y) && x.base != y.base <==> Apart(x, y)
    ensures x.base == y.base ==> CompareAreasAsserts(x, y)
  {
    assert LastAddress(x) == x.base + x.length - 1;
    assert LastAddress(y) == y.base + y.length - 1;
  }

  /** The address is inside exactly when the comparison says so. */
  lemma ZeroMeansInside(a: Area, address: nat)
    requires Fits(a.info) && address < WORD
    ensures CompareAreaToAddress(a, address) == 0 <==> Contains(a.info, address)
    ensures CompareAreaToAddress(a, address) < 0 <==> a.info.base + a.info.length <= address
  {
    assert LastAddress(a.info) == a.info.base + a.info.length - 1;
  }

  lemma AreasRise(s: seq<RbNode<Area>>, v: Area)
    requires Ascending(Infos(s))
    ensures Rising(CompareAreas, v, s)
  {
    forall i, j | 0 <= i < j < |s|
      ensures CompareAreas(s[i].data, v) >= 0 ==> CompareAreas(s[j].data, v) >= 0
      ensures CompareAreas(s[i].data, v) > 0 ==> CompareAreas(s[j].data, v) > 0
    {
      assert Infos(s)[i].base < Infos(s)[j].base;
    }
  }

  lemma AddressesRise(s: seq<RbNode<Area>>, address: nat)
    requires Ascending(Infos(s)) && address < WORD
    ensures Rising(CompareAreaToAddress, address, s)
  {
    forall i, j | 0 <= i < j < |s|
      ensures CompareAreaToAddress(s[i].data, address) >= 0 ==> CompareAreaToAddress(s[j].data, address) >= 0
      ensures CompareAreaToAddress(s[i].data, address) > 0 ==> CompareAreaToAddress(s[j].data, address) > 0
    {
      assert Fits(Infos(s)[i]) && Fits(Infos(s)[j]) && Infos(s)[i].base < Infos(s)[j].base;
      ZeroMeansInside(s[i].data, address);
      ZeroMeansInside(s[j].data, address);
    }
  }
}
