/** The denomination catalogs. Face values are kept in tenths of the
    currency unit (`0.1` is 1, `10000` is 100000) so that every value is an
    exact natural number. */
module Data {
  import opened Wrappers

  datatype Currency = JPY | CNY

  /** A catalog entry; `labelText` is the entry's `label` (a reserved word
      here), and `isCoin` is `false` where the source leaves it out. */
  datatype Denomination = Denomination(id: string, tenths: nat, labelText: string, isCoin: bool)

  const JpyData: seq<Denomination> := [
    Denomination("jpy-10000", 100000, "一万円札", false),
    Denomination("jpy-5000", 50000, "五千円札", false),
    Denomination("jpy-2000", 20000, "二千円札", false),
    Denomination("jpy-1000", 10000, "千円札", false),
    Denomination("jpy-500", 5000, "五百円玉", true),
    Denomination("jpy-100", 1000, "百円玉", true),
    Denomination("jpy-50", 500, "五十円玉", true),
    Denomination("jpy-10", 100, "十円玉", true),
    Denomination("jpy-5", 50, "五円玉", true),
    Denomination("jpy-1", 10, "一円玉", true)
  ]

  const CnyData: seq<Denomination> := [
    Denomination("cny-100", 1000, "100元札", false),
    Denomination("cny-50", 500, "50元札", false),
    Denomination("cny-20", 200, "20元札", false),
    Denomination("cny-10", 100, "10元札", false),
    Denomination("cny-5", 50, "5元札", false),
    Denomination("cny-1b", 10, "1元札", false),
    Denomination("cny-1c", 10, "1元硬貨", true),
    Denomination("cny-05", 5, "5角硬貨", true),
    Denomination("cny-01", 1, "1角硬貨", true)
  ]

  /** `isJPY ? jpyData : cnyData` */
  function Catalog(c: Currency): seq<Denomination> {
    if c == JPY then JpyData else CnyData
  }

  /** `data.find(d => d.id === id)`: the first entry with that id. */
  function Find(data: seq<Denomination>, id: string): (r: Option<Denomination>)
    ensures r.Some? ==> r.value in data && r.value.id == id
    ensures r.None? ==> forall i :: 0 <= i < |data| ==> data[i].id != id
  {
    if data == [] then None
    else if data[0].id == id then Some(data[0])
    else Find(data[1..], id)
  }

  /** The face value as a real number of currency units. */
  function Kind(d: Denomination): real {
    d.tenths as real / 10.0
  }

  predicate DistinctIds(data: seq<Denomination>) {
    forall i, j :: 0 <= i < j < |data| ==> data[i].id != data[j].id
  }

  /** With distinct ids, `find` returns exactly the entry carrying the id. */
  lemma {:induction false} FindUnique(data: seq<Denomination>, i: nat)
    requires DistinctIds(data) && i < |data|
    ensures Find(data, data[i].id) == Some(data[i])
  {
    if i > 0 {
      assert DistinctIds(data[1..]) by {
        forall a, b | 0 <= a < b < |data[1..]| ensures data[1..][a].id != data[1..][b].id {
          assert data[1..][a] == data[a + 1] && data[1..][b] == data[b + 1];
        }
      }
      assert data[0].id != data[i].id;
      FindUnique(data[1..], i - 1);
      assert data[1..][i - 1] == data[i];
    }
  }

  // ----- Facts about the shipped catalogs -----

  /** No id occurs twice, within a catalog or across both. */
  lemma AllIdsDistinct()
    ensures DistinctIds(JpyData + CnyData)
  {
    var all := JpyData + CnyData;
    forall i, j | 0 <= i < j < |all| ensures all[i].id != all[j].id {
      assert all[i].id[..4] != all[j].id[..4] || all[i].id != all[j].id;
    }
  }

  lemma CatalogIdsDistinct(c: Currency)
    ensures DistinctIds(Catalog(c))
  {
    AllIdsDistinct();
    var all := JpyData + CnyData;
    if c == JPY {
      forall i, j | 0 <= i < j < |JpyData| ensures JpyData[i].id != JpyData[j].id {
        assert all[i] == JpyData[i] && all[j] == JpyData[j];
      }
    } else {
      forall i, j | 0 <= i < j < |CnyData| ensures CnyData[i].id != CnyData[j].id {
        assert all[|JpyData| + i] == CnyData[i] && all[|JpyData| + j] == CnyData[j];
      }
    }
  }

  /** Every entry below one unit is flagged as a coin. */
  lemma BelowOneIsCoin(c: Currency)
    ensures forall d :: d in Catalog(c) && d.tenths < 10 ==> d.isCoin
  {
  }

  /** Every face value is positive (and, in tenths, a whole number). */
  lemma FaceValuesPositive(c: Currency)
    ensures forall d :: d in Catalog(c) ==> d.tenths > 0 && Kind(d) > 0.0
  {
  }
}
