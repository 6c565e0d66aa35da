/**
 * The pure rules of the client routes: the name/phone search and the paginated,
 * name-ordered list with its page arithmetic.
 */
module Clients {
  import opened Wrappers
  import opened Domain
  import opened Seqs
  import opened Text

  const DefaultPage: int := 1
  const DefaultPerPage: int := 20

  /** The create/update schema: a non-empty name and a phone of at least eight UTF-16 code units. */
  predicate ValidClientInput(name: string, phone: string) {
    Utf16Length(name) >= 1 && Utf16Length(phone) >= 8
  }

  /** The search filter: an empty search matches every client, any other matches by name or phone, ignoring case. */
  predicate MatchesSearch(c: Client, search: string) {
    search == "" || ContainsIgnoringCase(c.name, search) || ContainsIgnoringCase(c.phone, search)
  }

  /** The search filter as a `where` predicate. */
  function SearchFilter(search: string): Client -> bool {
    c => MatchesSearch(c, search)
  }

  /** A search string that occurs verbatim in a client's name or phone finds that client. */
  lemma SearchFindsOccurrence(c: Client, search: string, i: int)
    requires OccursAt(c.name, search, i) || OccursAt(c.phone, search, i)
    ensures MatchesSearch(c, search)
  {
    var field := if OccursAt(c.name, search, i) then c.name else c.phone;
    assert Lower(field)[i..i + |search|] == Lower(search);
    OccursAtContains(Lower(field), Lower(search), i);
  }

  /** The `name: 'asc'` order. */
  predicate NameLe(a: Client, b: Client) {
    StrLe(a.name, b.name)
  }

  /** The clients that match `search`, each once, ordered by name: the sequence the pages cut. */
  function Matching(rows: seq<Client>, search: string): (r: seq<Client>)
    ensures forall c :: c in r <==> c in rows && MatchesSearch(c, search)
    ensures SortedBy(r, NameLe)
    ensures |r| == |Filter(rows, c => MatchesSearch(c, search))|
    ensures Distinct(rows) ==> Distinct(r)
  {
    var matching := Filter(rows, c => MatchesSearch(c, search));
    StrLeIsTotalOrder();
    assert TotalPreorder(NameLe);
    SortKeeps(matching, NameLe);
    assert Distinct(rows) ==> Distinct(matching) by {
      if Distinct(rows) { FilterDistinct(rows, c => MatchesSearch(c, search)); }
    }
    var r := Sort(matching, NameLe);
    assert |r| == |multiset(r)| == |matching|;
    assert SortedBy(r, NameLe);
    r
  }

  /** `Math.ceil(total / perPage)`: the fewest pages of `perPage` rows that hold `total` rows. */
  function CeilDiv(total: nat, perPage: nat): (pages: nat)
    requires perPage >= 1
    ensures pages * perPage >= total
    ensures pages == 0 || (pages - 1) * perPage < total
  {
    var pages := (total + perPage - 1) / perPage;
    assert total + perPage - 1 == pages * perPage + (total + perPage - 1) % perPage;
    pages
  }

  /** `(page - 1) * perPage`: the rows before page `page`. */
  function Skip(page: int, perPage: int): (skip: nat)
    requires page >= 1 && perPage >= 1
  {
    (page - 1) * perPage
  }

  /** A page holds rows exactly when its number is at most the page count. */
  lemma {:induction false} PageNonEmptyIff(total: nat, page: int, perPage: int)
    requires page >= 1 && perPage >= 1
    ensures Skip(page, perPage) < total <==> page <= CeilDiv(total, perPage)
  {
    var pages := CeilDiv(total, perPage);
    if page <= pages {
      MulMonotone(page - 1, pages - 1, perPage);
    } else {
      MulMonotone(pages, page - 1, perPage);
    }
  }

  lemma MulMonotone(a: nat, b: nat, k: nat)
    requires a <= b
    ensures a * k <= b * k
  {
  }

  /** Every row lies on exactly one page, the one numbered `k / perPage + 1`, and that page exists. */
  lemma {:induction false} RowOnOnePage(total: nat, k: nat, perPage: int)
    requires k < total && perPage >= 1
    ensures var p := k / perPage + 1;
      && Skip(p, perPage) <= k < Skip(p, perPage) + perPage
      && p <= CeilDiv(total, perPage)
      && forall q :: q >= 1 && Skip(q, perPage) <= k < Skip(q, perPage) + perPage ==> q == p
  {
    var p := k / perPage + 1;
    assert k == (p - 1) * perPage + k % perPage;
    PageNonEmptyIff(total, p, perPage);
    forall q | q >= 1 && Skip(q, perPage) <= k < Skip(q, perPage) + perPage ensures q == p {
      if q < p {
        MulMonotone(q, p - 1, perPage);
      } else if q > p {
        MulMonotone(p, q - 1, perPage);
      }
    }
  }

  /** The rows of page `page` (counted from 1) when `all` is cut into pages of `perPage` rows. */
  function PageWindow<T>(all: seq<T>, page: int, perPage: int): (items: seq<T>)
    requires page >= 1 && perPage >= 1
    ensures |items| == if Skip(page, perPage) >= |all| then 0
                       else if perPage < |all| - Skip(page, perPage) then perPage
                       else |all| - Skip(page, perPage)
    ensures items != [] ==> Skip(page, perPage) + |items| <= |all|
    ensures forall i :: 0 <= i < |items| ==> items[i] == all[Skip(page, perPage) + i]
    ensures items != [] <==> page <= CeilDiv(|all|, perPage)
  {
    PageNonEmptyIff(|all|, page, perPage);
    Window(all, Skip(page, perPage), perPage)
  }

  /** A page of the matching list holds matching rows, in name order. */
  lemma PageOfMatching(rows: seq<Client>, search: string, page: int, perPage: int)
    requires page >= 1 && perPage >= 1
    ensures var items := PageWindow(Matching(rows, search), page, perPage);
            && (forall c :: c in items ==> c in rows && MatchesSearch(c, search))
            && SortedBy(items, NameLe)
  {
    WindowKeeps(Matching(rows, search), Skip(page, perPage), perPage, NameLe);
  }

  /** What GET /clients answers: one page of clients and the counts around it. */
  datatype ClientPage = ClientPage(items: seq<Client>, page: int, perPage: int, total: nat, totalPages: nat)

  /**
   * GET /clients: `page` defaults to 1 and `perPage` to 20; `items` is the page's window of
   * the name-ordered matching clients; `total` counts all of them and `totalPages` is the
   * ceiling of `total / perPage`.
   */
  function ListClients(rows: seq<Client>, page: Option<int>, perPage: Option<int>, search: Option<string>)
    : (r: ClientPage)
    requires page.Some? ==> page.value >= 1
    requires perPage.Some? ==> perPage.value >= 1
    ensures r.page == page.GetOr(DefaultPage) && r.perPage == perPage.GetOr(DefaultPerPage)
    ensures r.total == |Matching(rows, search.GetOr(""))|
    ensures r.totalPages == CeilDiv(r.total, r.perPage)
    ensures r.items == PageWindow(Matching(rows, search.GetOr("")), r.page, r.perPage)
    ensures r.items != [] <==> r.page <= r.totalPages
  {
    var p := page.GetOr(DefaultPage);
    var pp := perPage.GetOr(DefaultPerPage);
    var all := Matching(rows, search.GetOr(""));
    ClientPage(PageWindow(all, p, pp), p, pp, |all|, CeilDiv(|all|, pp))
  }

  /** GET /clients/:id: the client with its appointments, or NotFound. */
  datatype ClientDetail = ClientDetail(client: Client, appointments: seq<Appointment>)

  /** The `date: 'desc'` order of a client's appointments. */
  predicate LaterFirst(a: Appointment, b: Appointment) {
    a.date >= b.date
  }

  function Detail(clients: map<Id, Client>, appointmentRows: seq<Appointment>, id: Id): (r: Result<ClientDetail>)
    ensures r.Err? <==> id !in clients
    ensures r.Err? ==> r.error == NotFound
    ensures r.Ok? ==> r.value.client == clients[id]
    ensures r.Ok? ==> forall a :: a in r.value.appointments <==> a in appointmentRows && a.clientId == id
    ensures r.Ok? ==> forall i, j :: 0 <= i < j < |r.value.appointments| ==>
      r.value.appointments[i].date >= r.value.appointments[j].date
    ensures r.Ok? && Distinct(appointmentRows) ==> Distinct(r.value.appointments)
  {
    if id !in clients then Err(NotFound)
    else
      var own := Filter(appointmentRows, (a: Appointment) => a.clientId == id);
      assert TotalPreorder(LaterFirst);
      SortKeeps(own, LaterFirst);
      assert Distinct(appointmentRows) ==> Distinct(own) by {
        if Distinct(appointmentRows) { FilterDistinct(appointmentRows, (a: Appointment) => a.clientId == id); }
      }
      var ordered := Sort(own, LaterFirst);
      assert SortedBy(ordered, LaterFirst);
      Ok(ClientDetail(clients[id], ordered))
  }
}
