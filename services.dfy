/**
 * The pure rules of the service routes: the create/update schema and the public
 * list of active services ordered by name.
 */
module Services {
  import opened Wrappers
  import opened Domain
  import opened Seqs
  import opened Text

  /** The create/update schema: a non-empty name, a positive whole duration in minutes, a non-negative price. */
  predicate ValidServiceInput(name: string, durationMinutes: int, price: real) {
    Utf16Length(name) >= 1 && durationMinutes > 0 && price >= 0.0
  }

  predicate IsActive(s: Service) {
    s.active
  }

  /** The `name: 'asc'` order. */
  predicate NameLe(a: Service, b: Service) {
    StrLe(a.name, b.name)
  }

  lemma NameLeIsTotalPreorder()
    ensures TotalPreorder(NameLe)
  {
    StrLeIsTotalOrder();
  }

  /** GET /services: exactly the active services, each once, ordered by name. */
  function ActiveByName(rows: seq<Service>): (r: seq<Service>)
    ensures forall s :: s in r <==> s in rows && s.active
    ensures forall i, j :: 0 <= i < j < |r| ==> StrLe(r[i].name, r[j].name)
    ensures Distinct(rows) ==> Distinct(r)
  {
    var active := Filter(rows, IsActive);
    NameLeIsTotalPreorder();
    SortKeeps(active, NameLe);
    assert Distinct(rows) ==> Distinct(active) by {
      if Distinct(rows) { FilterDistinct(rows, IsActive); }
    }
    var r := Sort(active, NameLe);
    assert SortedBy(r, NameLe);
    r
  }

  /** GET /services/:id: the service when it exists and is active; NotFound otherwise. */
  function Detail(services: map<Id, Service>, id: Id): (r: Result<Service>)
    ensures r.Ok? <==> id in services && services[id].active
    ensures r.Ok? ==> r.value == services[id]
    ensures r.Err? ==> r.error == NotFound
  {
    if id in services && services[id].active then Ok(services[id]) else Err(NotFound)
  }
}
