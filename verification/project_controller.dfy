/**
 The public project endpoints: id guards, the mapping of service errors to HTTP codes, and the
 handling of the uploaded files around each service call.
 */
module ProjectController {
  import opened Wrappers
  import opened Text
  import opened Json
  import opened FileSystem
  import opened ProjectEntity
  import opened ProjectService
  import opened UploadPaths
  import opened Admin

  const InternalError := "Ocorreu um erro interno no servidor."
  const UpdateIdRequired := "O ID do projeto é obrigatório para solicitar uma atualização."
  const DeletionIdRequired := "O ID do projeto é obrigatório para solicitar uma exclusão."
  const UpdateNotFound := "Projeto não encontrado para atualização, verifique o ID e tente novamente."
  const UpdateSent := "Solicitação de atualização enviada para análise."
  const DeletionSent := "Solicitação de exclusão enviada para análise."
  const AtivoRequired := "O corpo da requisição deve conter a chave 'ativo' com um valor booleano (true/false)."

  /** `_handleError`: a duplicate is a 400, a missing record a 404, anything else a generic 500. */
  function HandleError(message: string): (r: Reply)
    ensures Contains(message, "já cadastrado") ==> r == Reply(400, message)
    ensures !Contains(message, "já cadastrado") && Contains(message, "não encontrado") ==> r == Reply(404, message)
    ensures !Contains(message, "já cadastrado") && !Contains(message, "não encontrado") ==> r == Reply(500, InternalError)
  {
    if Contains(message, "já cadastrado") then Reply(400, message)
    else if Contains(message, "não encontrado") then Reply(404, message)
    else Reply(500, InternalError)
  }

  /** A duplicate contact email reaches the client as a 400 with the service's message. */
  lemma DuplicateIs400()
    ensures HandleError(DuplicateEmail) == Reply(400, DuplicateEmail)
  {
    assert DuplicateEmail == "E-mail de contato " + "já cadastrado" + " no sistema.";
    assert MatchesAt(DuplicateEmail, "já cadastrado", 18);
    ContainsIff(DuplicateEmail, "já cadastrado");
  }

  lemma NotFoundHasNoDuplicateMarker()
    ensures !Contains(ProjectService.NotFound, "já cadastrado")
  {
    NotContainsWithout(ProjectService.NotFound, "já cadastrado", 1);
  }

  lemma NotFoundHasNotFoundMarker()
    ensures Contains(ProjectService.NotFound, "não encontrado")
  {
    var m := ProjectService.NotFound;
    assert m == "Projeto " + "não encontrado" + ".";
    assert MatchesAt(m, "não encontrado", 8);
    ContainsIff(m, "não encontrado");
  }

  /** A missing project reaches the client as a 404 with the service's message. */
  lemma NotFoundIs404()
    ensures HandleError(ProjectService.NotFound) == Reply(404, ProjectService.NotFound)
  {
    NotFoundHasNoDuplicateMarker();
    NotFoundHasNotFoundMarker();
  }

  /** A storage failure (an over-long value, a string `imagens`) is hidden behind a generic 500. */
  lemma StorageErrorsAre500()
    ensures HandleError(DataTooLong) == Reply(500, InternalError)
    ensures HandleError(NotAFunction) == Reply(500, InternalError)
  {
    var m1 := "Data too long for column";
    var m2 := "dados.imagens.map is not a function";
    assert m1 == DataTooLong && m2 == NotAFunction;
    NotContainsWithout(m1, "já cadastrado", 1);
    NotContainsWithout(m1, "não encontrado", 1);
    NotContainsWithout(m2, "já cadastrado", 1);
    NotContainsWithout(m2, "não encontrado", 1);
  }

  /** `!parseInt(...)`: NaN (None) and 0 both fail the guard. */
  predicate MissingId(id: Option<int>) {
    id.None? || id.value == 0
  }

  /** The key a parsed id finds: none for NaN or a negative number. */
  function Key(id: Option<int>): Option<nat> {
    if id.Some? && id.value >= 0 then Some(id.value) else None
  }

  /** `_deleteUploadedFilesOnFailure`: best-effort unlink of every uploaded file's temporary path. */
  function DeleteTemps(fs: Fs, files: Uploads, fails: set<string>): (r: Fs)
    ensures forall i :: 0 <= i < |files.All()| && files.All()[i].tempPath !in fails ==> files.All()[i].tempPath !in r
    ensures forall p :: p in r <==> p in fs && (p in fails || forall i :: 0 <= i < |files.All()| ==> files.All()[i].tempPath != p)
  {
    UnlinkAll(fs, set i | 0 <= i < |files.All()| :: files.All()[i].tempPath, fails)
  }

  /**
   `cadastrar`: the files are moved and the data submitted; any failure answers through
   `HandleError` after `DeleteTemps`, which by then finds nothing at the temporary paths.
   */
  function Cadastrar(w: World, form: Object, files: Uploads, fails: set<string>): (r: (World, Reply))
    ensures var prep := Prepare(w.fs, form, files, "", "");
      var (db, res) := Create(w.db, prep.data);
      && (res.Ok? ==> r == (World(db, prep.fs), Reply(201, "")))
      && (res.Err? ==> r.0.db == w.db && r.1 == HandleError(res.message))
  {
    var prep := Prepare(w.fs, form, files, "", "");
    var (db, res) := Create(w.db, prep.data);
    if res.Ok? then (World(db, prep.fs), Reply(201, ""))
    else (World(w.db, DeleteTemps(prep.fs, files, fails)), HandleError(res.message))
  }

  /**
   When the submission fails, the files `Cadastrar` has already moved stay in the project's
   directory: the cleanup unlinks the temporary paths, not the moved ones.
   */
  lemma CadastrarLeavesMovedFiles(w: World, form: Object, files: Uploads, fails: set<string>, i: nat)
    requires EmailTaken(w.db, Get(form, "emailContato"))
    requires TempsOutside(files.All(), TargetFor("", "", form).Dir())
    requires i < |files.imagens|
    ensures TargetFor("", "", form).PathOf(files.imagens[i].filename) in Cadastrar(w, form, files, fails).0.fs
  {
    CreationFails(w, form, files);
    var t := TargetFor("", "", form);
    var dest := t.PathOf(files.imagens[i].filename);
    StoredPathShape(t, files.imagens[i].filename);
    assert files.All()[|files.logo| + i] == files.imagens[i];
    forall j | 0 <= j < |files.All()| ensures files.All()[j].tempPath != dest {
      assert !Under(files.All()[j].tempPath, t.Dir());
    }
  }

  /** The paths a request's files were moved to. */
  function MovedPaths(t: Target, files: Uploads): set<string> {
    set i | 0 <= i < |files.All()| :: t.PathOf(files.All()[i].filename)
  }

  /** `cadastrar` with the rollback removing the moved files, which is what the cleanup is for. */
  function CadastrarCleaning(w: World, form: Object, files: Uploads, fails: set<string>): (r: (World, Reply))
    ensures var prep := Prepare(w.fs, form, files, "", "");
      var (db, res) := Create(w.db, prep.data);
      && (res.Ok? ==> r == (World(db, prep.fs), Reply(201, "")))
      && (res.Err? ==> r.0.db == w.db && r.1 == HandleError(res.message))
  {
    var prep := Prepare(w.fs, form, files, "", "");
    var (db, res) := Create(w.db, prep.data);
    if res.Ok? then (World(db, prep.fs), Reply(201, ""))
    else
      var t := TargetFor("", "", form);
      (World(w.db, UnlinkAll(DeleteTemps(prep.fs, files, fails), MovedPaths(t, files), fails)), HandleError(res.message))
  }

  /**
   With the corrected cleanup, a failed submission leaves none of its files behind, neither at
   the temporary paths nor in the project's directory, except those whose unlink fails.
   */
  lemma CadastrarCleaningLeavesNothing(w: World, form: Object, files: Uploads, fails: set<string>, i: nat)
    requires EmailTaken(w.db, Get(form, "emailContato"))
    requires i < |files.All()|
    ensures var f := files.All()[i];
      var fs := CadastrarCleaning(w, form, files, fails).0.fs;
      && (f.tempPath !in fails ==> f.tempPath !in fs)
      && (TargetFor("", "", form).PathOf(f.filename) !in fails ==> TargetFor("", "", form).PathOf(f.filename) !in fs)
  {
    CreationFails(w, form, files);
  }

  /** A taken contact email makes the creation fail: the moved form data keeps `emailContato`. */
  lemma CreationFails(w: World, form: Object, files: Uploads)
    requires EmailTaken(w.db, Get(form, "emailContato"))
    ensures Create(w.db, Prepare(w.fs, form, files, "", "").data).1 == Err(DuplicateEmail)
  {
    var data := Prepare(w.fs, form, files, "", "").data;
    assert Get(data, "emailContato") == Get(form, "emailContato");
  }

  /**
   `solicitarAtualizacao`: a missing id is a 400 that leaves the uploads where they are; an
   unknown project a 404 after deleting them; otherwise the files go to the existing project's
   directory and the request is recorded.
   */
  function SolicitarAtualizacao(w: World, id: Option<int>, form: Object, files: Uploads, fails: set<string>): (r: (World, Reply))
    ensures MissingId(id) ==> r == (w, Reply(400, UpdateIdRequired))
    ensures !MissingId(id) && (Key(id).None? || Key(id).value !in w.db.projects.rows) ==>
      r == (World(w.db, DeleteTemps(w.fs, files, fails)), Reply(404, UpdateNotFound))
    ensures !MissingId(id) && Key(id).Some? && Key(id).value in w.db.projects.rows ==>
      var p := w.db.projects.rows[Key(id).value];
      var prep := Prepare(w.fs, form, files, TextOf(Get(p.cols, "ods")), TextOf(Get(p.cols, "nomeProjeto")));
      && r.1 == Reply(200, UpdateSent)
      && r.0 == World(RequestUpdate(w.db, Key(id).value, prep.data).0, prep.fs)
      && r.0.db.projects.rows[Key(id).value].envelope == Some(prep.data)
  {
    if MissingId(id) then (w, Reply(400, UpdateIdRequired))
    else if Key(id).None? || Key(id).value !in w.db.projects.rows then
      (World(w.db, DeleteTemps(w.fs, files, fails)), Reply(404, UpdateNotFound))
    else
      var key := Key(id).value;
      var p := w.db.projects.rows[key];
      var prep := Prepare(w.fs, form, files, TextOf(Get(p.cols, "ods")), TextOf(Get(p.cols, "nomeProjeto")));
      (World(RequestUpdate(w.db, key, prep.data).0, prep.fs), Reply(200, UpdateSent))
  }

  /** `solicitarExclusao`. */
  function SolicitarExclusao(db: Db, id: Option<int>): (r: (Db, Reply))
    ensures MissingId(id) ==> r == (db, Reply(400, DeletionIdRequired))
    ensures !MissingId(id) && (Key(id).None? || Key(id).value !in db.projects.rows) ==>
      r == (db, Reply(404, ProjectService.NotFound))
    ensures !MissingId(id) && Key(id).Some? && Key(id).value in db.projects.rows ==>
      r.1 == Reply(200, DeletionSent) && Key(id).value in r.0.projects.rows
      && r.0.projects.rows[Key(id).value].status == PendingDeletion
  {
    if MissingId(id) then (db, Reply(400, DeletionIdRequired))
    else if Key(id).None? then NotFoundIs404(); (db, HandleError(ProjectService.NotFound))
    else
      NotFoundIs404();
      var (db', res) := RequestDeletion(db, Key(id).value);
      if res.Err? then (db, HandleError(res.message)) else (db', Reply(200, DeletionSent))
  }

  /**
   Every stored project is reachable through the `!id` guard: ids start at 1, so both requests
   on a stored id go through.
   */
  lemma StoredIdsPassGuard(w: World, k: nat, form: Object, files: Uploads, fails: set<string>)
    requires k in w.db.projects.rows
    ensures SolicitarExclusao(w.db, Some(k)).1 == Reply(200, DeletionSent)
    ensures SolicitarAtualizacao(w, Some(k), form, files, fails).1 == Reply(200, UpdateSent)
  {
  }

  /**
   `buscarPorId`: the project while it is ATIVO, otherwise a 404. The id is not guarded: a NaN id
   reaches the query, which the database refuses, and `_handleError` answers a generic 500.
   */
  function BuscarPorId(db: Db, id: Option<int>): (r: (Reply, Option<Project>))
    ensures r.1.Some? <==> r.0.code == 200
    ensures id.None? ==> r == (Reply(500, InternalError), None)
    ensures id.Some? && r.1.None? ==> r.0 == Reply(404, ProjectService.NotFound)
    ensures r.1.Some? <==> Key(id).Some? && Key(id).value in db.projects.rows && db.projects.rows[Key(id).value].status == Active
  {
    if id.None? then (Reply(500, InternalError), None)
    else if Key(id).None? then (Reply(404, ProjectService.NotFound), None)
    else
      var found := FindActive(db, Key(id).value);
      if found.None? then (Reply(404, ProjectService.NotFound), None) else (Reply(200, ""), found)
  }

  /** `buscarPorNome`: a missing `nome` is interpolated as the text "undefined". */
  function BuscarPorNome(db: Db, nome: Option<string>): (r: seq<nat>)
    ensures nome.Some? ==> forall id :: id in r <==>
      id in db.projects.rows && db.projects.rows[id].status == Active
      && Contains(TextOf(Get(db.projects.rows[id].cols, "nomeProjeto")), nome.value)
    ensures nome.None? ==> forall id :: id in r <==>
      id in db.projects.rows && db.projects.rows[id].status == Active
      && Contains(TextOf(Get(db.projects.rows[id].cols, "nomeProjeto")), "undefined")
  {
    SearchByName(db, nome.GetOr("undefined"))
  }

  /**
   `alterarStatus`: `ativo` must be a JSON boolean. The id is not guarded: a NaN id reaches
   `findByPk`, whose query the database refuses, so it is a generic 500 with nothing changed.
   */
  function AlterarStatus(db: Db, id: Option<int>, ativo: Value): (r: (Db, Reply))
    ensures !ativo.Bool? ==> r == (db, Reply(400, AtivoRequired))
    ensures ativo.Bool? && id.None? ==> r == (db, Reply(500, InternalError))
    ensures ativo.Bool? && id.Some? && (Key(id).None? || Key(id).value !in db.projects.rows) ==>
      r == (db, Reply(404, ProjectService.NotFound))
    ensures ativo.Bool? && Key(id).Some? && Key(id).value in db.projects.rows ==>
      r.1.code == 200 && Key(id).value in r.0.projects.rows
      && (Visible(r.0.projects.rows[Key(id).value]) <==> ativo.b)
      && r.0.projects.rows[Key(id).value].status == db.projects.rows[Key(id).value].status
  {
    if !ativo.Bool? then (db, Reply(400, AtivoRequired))
    else if id.None? then (db, Reply(500, InternalError))
    else if Key(id).None? then NotFoundIs404(); (db, HandleError(ProjectService.NotFound))
    else
      NotFoundIs404();
      var (db', res) := SetVisible(db, Key(id).value, ativo.b);
      if res.Err? then (db, HandleError(res.message)) else (db', Reply(200, ""))
  }
}
