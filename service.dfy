/** The running service: the book list and the in-memory log are the two
    pieces of state every request handler shares, held here by one object.
    Each handler first logs the request at INFO level and, on each failure
    path, logs one more WARNING or ERROR entry before raising. */
module Service {
  import opened Outcomes
  import opened Books
  import opened Logs
  import opened Queries

  /** What the health endpoint reports. */
  datatype HealthReport = HealthReport(status: string, totalLivros: nat, totalLogs: nat, mensagem: string)

  /** The query parameters the list endpoint defaults to. */
  const DefaultSkip := 0
  const DefaultLimit := 10

  /** What the delete handler's success path needs about removing the first
      match, gathered in one place. */
  lemma DeleteFirstMatch(s: seq<Livro>, id: int, i: nat)
    requires FirstIndex(s, id) == Some(i)
    ensures ListRemove(s, s[i]) == RemoveAt(s, i)
    ensures |RemoveAt(s, i)| == |s| - 1
    ensures AllValid(s) ==> AllValid(RemoveAt(s, i))
    ensures UniqueIds(s) ==> UniqueIds(RemoveAt(s, i)) && !HasId(RemoveAt(s, i), id)
  {
    RemoveDropsFirstMatch(s, id, i);
    RemoveAtShape(s, i);
    RemoveKeepsUnique(s, id, i);
  }

  class Api {
    /** The catalogue, in insertion order. */
    var livros: seq<Livro>
    /** Every log entry the memory handler received, oldest first. */
    var logMemory: seq<LogEntry>

    /** Only validated records reach the store. */
    ghost predicate Valid()
      reads this
    {
      AllValid(livros)
    }

    constructor ()
      ensures Valid() && livros == [] && logMemory == []
    {
      livros := [];
      logMemory := [];
    }

    /** The memory handler: appends the entry to the log. */
    method Emit(entry: LogEntry)
      modifies this`logMemory
      ensures logMemory == old(logMemory) + [entry]
    {
      logMemory := logMemory + [entry];
    }

    /** A logging call: the root logger passes the entry on to the memory
        handler when its level reaches the root threshold. */
    method Log(entry: LogEntry)
      modifies this`logMemory
      ensures logMemory == old(logMemory) + if Severity(entry.level) >= RootThreshold then [entry] else []
    {
      if Severity(entry.level) >= RootThreshold {
        Emit(entry);
      }
    }

    /** GET /livros: the page of the store at `skip` of at most `limit`
        records; not found when the store is empty. */
    method ListarLivros(skip: int, limit: int) returns (r: Outcome<seq<Livro>>)
      requires Valid()
      modifies this`logMemory
      ensures Valid()
      ensures r == Page(livros, skip, limit)
      ensures logMemory == old(logMemory) + [LogEntry(Info, ListRequested(skip, limit))]
        + if livros == [] then [LogEntry(Warning, NoBooksFound)] else []
    {
      Log(LogEntry(Info, ListRequested(skip, limit)));
      if livros == [] {
        Log(LogEntry(Warning, NoBooksFound));
        return Fail(NotFound);
      }
      r := Ok(Slice(livros, skip, skip + limit));
    }

    /** GET /livros/{id}: scans the store and answers with the first record
        carrying `id`; not found when none does. */
    method ListarLivroPorId(id: int) returns (r: Outcome<Livro>)
      requires Valid()
      modifies this`logMemory
      ensures Valid()
      ensures r.Fail? <==> !HasId(livros, id)
      ensures r.Fail? ==> r.error == NotFound && r.error.Code() == 404
      ensures r.Ok? ==> FirstIndex(livros, id).Some? && r.value == livros[FirstIndex(livros, id).value]
      ensures logMemory == old(logMemory) + [LogEntry(Info, GetRequested(id))]
        + if r.Fail? then [LogEntry(Error, BookNotFound(id))] else []
    {
      Log(LogEntry(Info, GetRequested(id)));
      var i := 0;
      while i < |livros|
        invariant 0 <= i <= |livros|
        invariant forall j :: 0 <= j < i ==> livros[j].id != id
        invariant logMemory == old(logMemory) + [LogEntry(Info, GetRequested(id))]
      {
        if livros[i].id == id {
          return Ok(livros[i]);
        }
        i := i + 1;
      }
      Log(LogEntry(Error, BookNotFound(id)));
      r := Fail(NotFound);
    }

    /** GET /livros/buscar: the records matching the title and author
        filters, in store order; not found when none matches. */
    method BuscarLivros(titulo: Option<string>, autor: Option<string>) returns (r: Outcome<seq<Livro>>)
      requires Valid()
      modifies this`logMemory
      ensures Valid()
      ensures r == Search(livros, titulo, autor)
      ensures logMemory == old(logMemory) + [LogEntry(Info, SearchRequested(titulo, autor))]
        + if r.Fail? then [LogEntry(Warning, NoSearchMatch)] else []
    {
      Log(LogEntry(Info, SearchRequested(titulo, autor)));
      var resultados := Filter(livros, titulo, autor);
      if resultados == [] {
        Log(LogEntry(Warning, NoSearchMatch));
        return Fail(NotFound);
      }
      r := Ok(resultados);
    }

    /** POST /livros: rejects a record whose id is taken and leaves the
        store as it was; otherwise appends it at the end. */
    method AdicionarLivro(livro: Livro) returns (r: Outcome<Livro>)
      requires Valid() && ValidLivro(livro)
      modifies this
      ensures Valid()
      ensures r.Fail? <==> HasId(old(livros), livro.id)
      ensures r.Fail? ==> r.error == BadRequest && r.error.Code() == 400 && livros == old(livros)
      ensures r.Ok? ==> r.value == livro && livros == old(livros) + [livro]
      ensures r.Ok? ==> FirstIndex(livros, livro.id) == Some(|old(livros)|)
      ensures UniqueIds(old(livros)) ==> UniqueIds(livros)
      ensures logMemory == old(logMemory) + [LogEntry(Info, AddRequested(livro))]
        + if r.Fail? then [LogEntry(Error, DuplicateId(livro.id))] else []
    {
      Log(LogEntry(Info, AddRequested(livro)));
      var i := 0;
      while i < |livros|
        invariant 0 <= i <= |livros|
        invariant livros == old(livros)
        invariant forall j :: 0 <= j < i ==> livros[j].id != livro.id
        invariant logMemory == old(logMemory) + [LogEntry(Info, AddRequested(livro))]
      {
        if livros[i].id == livro.id {
          Log(LogEntry(Error, DuplicateId(livro.id)));
          return Fail(BadRequest);
        }
        i := i + 1;
      }
      AppendFresh(livros, livro);
      livros := livros + [livro];
      r := Ok(livro);
    }

    /** PUT /livros/{id}: replaces the first record carrying `id` with
        `livroAtualizado`, whatever id the replacement carries; not found,
        with the store unchanged, when no record carries `id`. */
    method AtualizarLivro(id: int, livroAtualizado: Livro) returns (r: Outcome<Livro>)
      requires Valid() && ValidLivro(livroAtualizado)
      modifies this
      ensures Valid()
      ensures r.Fail? <==> !HasId(old(livros), id)
      ensures r.Fail? ==> r.error == NotFound && r.error.Code() == 404 && livros == old(livros)
      ensures r.Ok? ==> r.value == livroAtualizado && FirstIndex(old(livros), id).Some?
      ensures r.Ok? ==> livros == old(livros)[FirstIndex(old(livros), id).value := livroAtualizado]
      ensures |livros| == |old(livros)|
      ensures UniqueIds(old(livros)) && (livroAtualizado.id == id || !HasId(old(livros), livroAtualizado.id))
        ==> UniqueIds(livros)
      ensures r.Ok? && UniqueIds(old(livros)) ==>
        (UniqueIds(livros) <==> livroAtualizado.id == id || !HasId(old(livros), livroAtualizado.id))
      ensures logMemory == old(logMemory) + [LogEntry(Info, UpdateRequested(id))]
        + if r.Fail? then [LogEntry(Error, UpdateTargetMissing(id))] else []
    {
      Log(LogEntry(Info, UpdateRequested(id)));
      var index := 0;
      while index < |livros|
        invariant 0 <= index <= |livros|
        invariant livros == old(livros)
        invariant forall j :: 0 <= j < index ==> livros[j].id != id
        invariant logMemory == old(logMemory) + [LogEntry(Info, UpdateRequested(id))]
      {
        if livros[index].id == id {
          if UniqueIds(livros) && (livroAtualizado.id == id || !HasId(livros, livroAtualizado.id)) {
            ReplaceKeepsUnique(livros, index, livroAtualizado);
          }
          if UniqueIds(livros) {
            ReplaceUniqueIff(livros, index, livroAtualizado);
          }
          livros := livros[index := livroAtualizado];
          return Ok(livroAtualizado);
        }
        index := index + 1;
      }
      Log(LogEntry(Error, UpdateTargetMissing(id)));
      r := Fail(NotFound);
    }

    /** DELETE /livros/{id}: removes the first record carrying `id` (the
        others keep their order) and confirms with the id; not found, with
        the store unchanged, when no record carries it. */
    method DeletarLivro(id: int) returns (r: Outcome<int>)
      requires Valid()
      modifies this
      ensures Valid()
      ensures r.Fail? <==> !HasId(old(livros), id)
      ensures r.Fail? ==> r.error == NotFound && r.error.Code() == 404 && livros == old(livros)
      ensures r.Ok? ==> r.value == id && FirstIndex(old(livros), id).Some?
      ensures r.Ok? ==> livros == RemoveAt(old(livros), FirstIndex(old(livros), id).value)
      ensures r.Ok? ==> |livros| == |old(livros)| - 1
      ensures UniqueIds(old(livros)) ==> UniqueIds(livros)
      ensures UniqueIds(old(livros)) ==> !HasId(livros, id)
      ensures logMemory == old(logMemory) + [LogEntry(Info, DeleteRequested(id))]
        + if r.Fail? then [LogEntry(Error, DeleteTargetMissing(id))] else []
    {
      Log(LogEntry(Info, DeleteRequested(id)));
      var i := 0;
      while i < |livros|
        invariant 0 <= i <= |livros|
        invariant livros == old(livros)
        invariant forall j :: 0 <= j < i ==> livros[j].id != id
        invariant logMemory == old(logMemory) + [LogEntry(Info, DeleteRequested(id))]
      {
        var livro := livros[i];
        if livro.id == id {
          assert FirstIndex(livros, id) == Some(i);
          DeleteFirstMatch(livros, id, i);
          livros := ListRemove(livros, livro);
          return Ok(id);
        }
        i := i + 1;
      }
      Log(LogEntry(Error, DeleteTargetMissing(id)));
      r := Fail(NotFound);
    }

    /** GET /health: the size of the store and of the log; logs nothing. */
    function Health(): (h: HealthReport)
      reads this
      ensures h.status == "ok" && h.mensagem == "API funcionando normalmente"
      ensures h.totalLivros == |livros| && h.totalLogs == |logMemory|
    {
      HealthReport("ok", |livros|, |logMemory|, "API funcionando normalmente")
    }

    /** GET /logs: the log as it stands; when it is still empty, the
        handler logs a warning (so the log is no longer empty) and answers
        not found. */
    method AcessarLogs() returns (r: Outcome<seq<LogEntry>>)
      modifies this`logMemory
      ensures r.Fail? <==> old(logMemory) == []
      ensures r.Fail? ==> r.error == NotFound && r.error.Code() == 404 && logMemory == [LogEntry(Warning, NoLogsFound)]
      ensures r.Ok? ==> r.value == logMemory && logMemory == old(logMemory)
    {
      if logMemory == [] {
        Log(LogEntry(Warning, NoLogsFound));
        return Fail(NotFound);
      }
      r := Ok(logMemory);
    }

    /** GET /: logs the visit. */
    method Homepage()
      modifies this`logMemory
      ensures logMemory == old(logMemory) + [LogEntry(Info, HomepageAccessed)]
    {
      Log(LogEntry(Info, HomepageAccessed));
    }
  }

  /** The catalogue's life cycle on one title: listing an empty store,
      adding, a rejected duplicate, an update, a lookup and a delete. */
  method DuneScenario()
  {
    var api := new Api();
    var listed := api.ListarLivros(DefaultSkip, DefaultLimit);
    assert listed == Fail(NotFound);

    var dune := Livro(1, "Dune", "Herbert");
    var added := api.AdicionarLivro(dune);
    assert added == Ok(dune) && api.livros == [dune];
    listed := api.ListarLivros(DefaultSkip, DefaultLimit);
    assert [dune][0..1] == [dune];
    assert listed == Ok([dune]);

    added := api.AdicionarLivro(dune);
    assert added == Fail(BadRequest) && |api.livros| == 1;

    var duneII := Livro(1, "Dune II", "Herbert");
    var updated := api.AtualizarLivro(1, duneII);
    assert updated == Ok(duneII);
    assert FirstIndex(api.livros, 1) == Some(0);
    var found := api.ListarLivroPorId(1);
    assert found == Ok(duneII);

    var deleted := api.DeletarLivro(1);
    assert deleted == Ok(1) && api.livros == [];
    found := api.ListarLivroPorId(1);
    assert found == Fail(NotFound);

    var health := api.Health();
    assert health.totalLivros == 0 && health.totalLogs == 11;
  }
}
