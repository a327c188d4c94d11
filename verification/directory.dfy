/** The player directory: element id to display name and price, built from the
    `elements` list of the bulk player catalog (app.py:18). */
module Directory {
  import opened Types

  /** One entry of the catalog's `elements` list; `nowCost` is in tenths of a unit. */
  datatype CatalogElement = CatalogElement(id: int, webName: string, nowCost: int)

  datatype PlayerInfo = PlayerInfo(name: string, price: int)

  type PlayerDirectory = map<int, PlayerInfo>

  function InfoOf(e: CatalogElement): PlayerInfo {
    PlayerInfo(e.webName, e.nowCost)
  }

  /** No element after position `i` carries the same id as `elements[i]`. */
  predicate LastWithItsId(elements: seq<CatalogElement>, i: nat)
    requires i < |elements|
  {
    forall j :: i < j < |elements| ==> elements[j].id != elements[i].id
  }

  /** The dict comprehension over the catalog: every catalog id is a key, and
      when an id is listed twice the later element wins. */
  function BuildDirectory(elements: seq<CatalogElement>): (d: PlayerDirectory)
    ensures d.Keys == set e | e in elements :: e.id
    ensures forall i :: 0 <= i < |elements| && LastWithItsId(elements, i) ==>
              d[elements[i].id] == InfoOf(elements[i])
  {
    if elements == [] then map[]
    else
      var last := elements[|elements| - 1];
      var front := elements[..|elements| - 1];
      assert elements == front + [last];
      BuildDirectory(front)[last.id := InfoOf(last)]
  }

  /** When the catalog lists each id once, every element is found under its id. */
  lemma DirectoryOfDistinctIds(elements: seq<CatalogElement>, i: nat)
    requires forall a, b :: 0 <= a < b < |elements| ==> elements[a].id != elements[b].id
    requires i < |elements|
    ensures elements[i].id in BuildDirectory(elements)
    ensures BuildDirectory(elements)[elements[i].id] == InfoOf(elements[i])
  {
    assert LastWithItsId(elements, i);
  }
}
