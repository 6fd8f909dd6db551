/** The book record, the field constraints checked before a record reaches a
    handler, and the facts about identifiers that every handler scans for. */
module Books {
  import opened Outcomes

  /** A catalogue record: `Livro` in the service. */
  datatype Livro = Livro(id: int, titulo: string, autor: string)

  /** The fields a record can be rejected for. */
  datatype Field = Id | Titulo | Autor

  /** The field constraints: a positive id, a non-empty title and author. */
  predicate ValidLivro(b: Livro)
  {
    b.id > 0 && |b.titulo| >= 1 && |b.autor| >= 1
  }

  datatype Validation = Accepted(livro: Livro) | Rejected(fields: set<Field>)

  /** Builds a record from the fields of a request body, or names every
      field that breaks its constraint (the request is then answered with
      status 422 before any handler runs). */
  function Validate(id: int, titulo: string, autor: string): (r: Validation)
    ensures r.Accepted? <==> ValidLivro(Livro(id, titulo, autor))
    ensures r.Accepted? ==> r.livro == Livro(id, titulo, autor) && ValidLivro(r.livro)
    ensures r.Rejected? ==> r.fields != {}
    ensures r.Rejected? ==>
      (Id in r.fields <==> id <= 0) &&
      (Titulo in r.fields <==> titulo == []) &&
      (Autor in r.fields <==> autor == [])
  {
    var bad := (if id > 0 then {} else {Id})
      + (if |titulo| >= 1 then {} else {Titulo})
      + (if |autor| >= 1 then {} else {Autor});
    if bad == {} then Accepted(Livro(id, titulo, autor)) else Rejected(bad)
  }

  /** Every record of the store satisfies the field constraints. */
  predicate AllValid(s: seq<Livro>)
  {
    forall i :: 0 <= i < |s| ==> ValidLivro(s[i])
  }

  /** Some record of `s` carries identifier `id`. */
  predicate HasId(s: seq<Livro>, id: int)
  {
    exists i :: 0 <= i < |s| && s[i].id == id
  }

  /** No two records of `s` share an identifier. */
  predicate UniqueIds(s: seq<Livro>)
  {
    forall i, j :: 0 <= i < j < |s| ==> s[i].id != s[j].id
  }

  /** The position the handlers' linear scans stop at: the first record in
      store order whose id is `id`, if there is one. */
  function FirstIndex(s: seq<Livro>, id: int): (r: Option<nat>)
    ensures r.None? <==> !HasId(s, id)
    ensures r.Some? ==> r.value < |s| && s[r.value].id == id
    ensures r.Some? ==> forall j :: 0 <= j < r.value ==> s[j].id != id
  {
    if s == [] then None
    else if s[0].id == id then Some(0)
    else
      match FirstIndex(s[1..], id)
      case None =>
        assert forall i :: 1 <= i < |s| ==> s[i] == s[1..][i - 1];
        None
      case Some(k) => Some(k + 1)
  }

  /** With unique identifiers the first match is the only match. */
  lemma FirstIndexIsOnlyIndex(s: seq<Livro>, id: int, i: nat)
    requires UniqueIds(s)
    requires FirstIndex(s, id) == Some(i)
    ensures forall j :: 0 <= j < |s| && j != i ==> s[j].id != id
  {
  }
}
