/**
 The project service: public submission, update and deletion requests, the `ativo` toggle,
 the public (ATIVO-only) queries and the pending-request listing. The database is the project
 table plus the image rows in insertion order.
 */
module ProjectService {
  import opened Wrappers
  import opened Json
  import opened Text
  import opened Tables
  import opened ProjectEntity

  datatype Db = Db(projects: Table<Project>, images: seq<ImageRow>)

  const DuplicateEmail := "E-mail de contato já cadastrado no sistema."
  const NotFound := "Projeto não encontrado."
  /** The database's message when a value exceeds its column. */
  const DataTooLong := "Data too long for column"
  /** The TypeError raised when `imagens` is a non-empty string, which has no `map`. */
  const NotAFunction := "dados.imagens.map is not a function"

  /** The URLs of a project's image rows, in insertion order. */
  function ImagesOf(rows: seq<ImageRow>, id: nat): seq<Value> {
    if |rows| == 0 then []
    else (if rows[0].projetoId == id then [rows[0].url] else []) + ImagesOf(rows[1..], id)
  }

  lemma {:induction false} ImagesOfAppend(a: seq<ImageRow>, b: seq<ImageRow>, id: nat)
    ensures ImagesOf(a + b, id) == ImagesOf(a, id) + ImagesOf(b, id)
    decreases |a|
  {
    if |a| == 0 {
      assert a + b == b;
    } else {
      var h := if a[0].projetoId == id then [a[0].url] else [];
      assert (a + b)[0] == a[0] && (a + b)[1..] == a[1..] + b;
      assert ImagesOf(a + b, id) == h + ImagesOf(a[1..] + b, id);
      ImagesOfAppend(a[1..], b, id);
      assert ImagesOf(a, id) == h + ImagesOf(a[1..], id);
      assert h + (ImagesOf(a[1..], id) + ImagesOf(b, id)) == (h + ImagesOf(a[1..], id)) + ImagesOf(b, id);
    }
  }

  /** The rows a bulk insert of `urls` for project `id` creates, in order. */
  function RowsFor(urls: seq<Value>, id: nat): (r: seq<ImageRow>)
    ensures |r| == |urls|
  {
    seq(|urls|, i requires 0 <= i < |urls| => ImageRow(urls[i], id))
  }

  /** Bulk-inserted rows are exactly the given URLs for their project, in order, and nothing for any other. */
  lemma {:induction false} ImagesOfRowsFor(urls: seq<Value>, id: nat, other: nat)
    ensures ImagesOf(RowsFor(urls, id), id) == urls
    ensures other != id ==> ImagesOf(RowsFor(urls, id), other) == []
    decreases |urls|
  {
    if |urls| > 0 {
      assert RowsFor(urls, id)[1..] == RowsFor(urls[1..], id);
      ImagesOfRowsFor(urls[1..], id, other);
    }
  }

  /** The image rows with those of project `id` removed. */
  function WithoutImagesOf(rows: seq<ImageRow>, id: nat): seq<ImageRow> {
    if |rows| == 0 then []
    else (if rows[0].projetoId == id then [] else [rows[0]]) + WithoutImagesOf(rows[1..], id)
  }

  /** Removing a project's rows leaves it none and every other project its own. */
  lemma {:induction false} WithoutImagesOfSpec(rows: seq<ImageRow>, id: nat, other: nat)
    ensures ImagesOf(WithoutImagesOf(rows, id), id) == []
    ensures other != id ==> ImagesOf(WithoutImagesOf(rows, id), other) == ImagesOf(rows, other)
    decreases |rows|
  {
    if |rows| > 0 {
      var head := if rows[0].projetoId == id then [] else [rows[0]];
      ImagesOfAppend(head, WithoutImagesOf(rows[1..], id), id);
      ImagesOfAppend(head, WithoutImagesOf(rows[1..], id), other);
      WithoutImagesOfSpec(rows[1..], id, other);
    }
  }

  /** The keys of the submission that `create` maps onto columns, besides `logo`. */
  const SubmittedKeys: set<string> := {
    "nomeProjeto", "ods", "prefeitura", "secretaria", "emailContato", "endereco", "descricao",
    "descricaoDiferencial", "odsRelacionadas", "website", "instagram"
  }

  /**
   The columns a submission fills: each submitted key the entity declares (`secretaria` is not a
   column and is dropped), and `logoUrl` from `logo`.
   */
  function CreationColumns(dados: Object): (cols: Object)
    ensures "ativo" !in cols
    ensures "logoUrl" in cols && cols["logoUrl"] == Get(dados, "logo")
    ensures forall k :: k in SubmittedKeys && k in Columns ==> k in cols && cols[k] == Get(dados, k)
    ensures forall k :: k in cols ==> k in Columns
  {
    (map k | k in SubmittedKeys * Columns :: Get(dados, k))["logoUrl" := Get(dados, "logo")]
  }

  /** Another project already has this contact email. */
  predicate EmailTaken(db: Db, email: Value) {
    exists id :: id in db.projects.rows && Get(db.projects.rows[id].cols, "emailContato") == email
  }

  /**
   `cadastrarProjetoComImagens`, one transaction: a contact email already present fails; otherwise
   the row is inserted with its defaults and one image row per URL of a non-empty `imagens` array,
   in order. Any failure rolls everything back.
   */
  function Create(db: Db, dados: Object): (r: (Db, Result<nat>))
    ensures r.1.Err? ==> r.0 == db
    ensures r.1 == Err(DuplicateEmail) <==> EmailTaken(db, Get(dados, "emailContato"))
    // past the email check: an over-long column fails, then a non-empty string `imagens`; otherwise success
    ensures !EmailTaken(db, Get(dados, "emailContato")) && !Fits(CreationColumns(dados)) ==> r.1 == Err(DataTooLong)
    ensures !EmailTaken(db, Get(dados, "emailContato")) && Fits(CreationColumns(dados)) ==>
      (NonEmptyText(Get(dados, "imagens")) <==> r.1 == Err(NotAFunction)) && (!NonEmptyText(Get(dados, "imagens")) <==> r.1.Ok?)
    ensures r.1.Ok? ==>
      var id := r.1.value;
      && id !in db.projects.rows
      && r.0.projects.rows == db.projects.rows[id := NewProject(CreationColumns(dados))]
    ensures r.1.Ok? ==>
      var imgs := Get(dados, "imagens");
      r.0.images == db.images + (if imgs.Arr? then RowsFor(imgs.items, r.1.value) else [])
  {
    if EmailTaken(db, Get(dados, "emailContato")) then (db, Err(DuplicateEmail))
    else
      var cols := CreationColumns(dados);
      if !Fits(cols) then (db, Err(DataTooLong))
      else
        var (projects, id) := Insert(db.projects, NewProject(cols));
        match Get(dados, "imagens")
        case Arr(urls) => (Db(projects, db.images + RowsFor(urls, id)), Ok(id))
        case Str(s) => if s != "" then (db, Err(NotAFunction)) else (Db(projects, db.images), Ok(id))
        case _ => (Db(projects, db.images), Ok(id))
  }

  /** A non-empty string, whose truthy `length` sends it to `map`, which strings lack. */
  predicate NonEmptyText(v: Value) {
    v.Str? && v.s != ""
  }

  /** Every image row belongs to an id the project table has already handed out. */
  predicate ImagesBelowNext(db: Db) {
    forall k :: 0 <= k < |db.images| ==> db.images[k].projetoId < db.projects.next
  }

  /** A project no row refers to has no images. */
  lemma {:induction false} ImagesOfNone(rows: seq<ImageRow>, id: nat)
    requires forall k :: 0 <= k < |rows| ==> rows[k].projetoId != id
    ensures ImagesOf(rows, id) == []
    decreases |rows|
  {
    if |rows| > 0 {
      ImagesOfNone(rows[1..], id);
    }
  }

  /**
   Creation appends one image row per URL of a non-empty `imagens` array, in order, and none
   when it is absent or empty; the new project had no rows before, so these are all its images.
   */
  lemma CreateImages(db: Db, dados: Object)
    requires Create(db, dados).1.Ok?
    ensures var (db', r) := Create(db, dados);
      var urls := if Get(dados, "imagens").Arr? then Get(dados, "imagens").items else [];
      && ImagesOf(db'.images, r.value) == ImagesOf(db.images, r.value) + urls
      && (ImagesBelowNext(db) ==> ImagesOf(db'.images, r.value) == urls)
  {
    var (db', r) := Create(db, dados);
    var id := r.value;
    var urls := if Get(dados, "imagens").Arr? then Get(dados, "imagens").items else [];
    ImagesOfAppend(db.images, RowsFor(urls, id), id);
    ImagesOfRowsFor(urls, id, id);
    assert db'.images == db.images + RowsFor(urls, id);
    if ImagesBelowNext(db) {
      ImagesOfNone(db.images, id);
    }
  }

  /** `solicitarAtualizacaoPorId`: from any status, the payload becomes the envelope and the status PENDENTE_ATUALIZACAO. */
  function RequestUpdate(db: Db, id: nat, payload: Object): (r: (Db, Result<()>))
    ensures id !in db.projects.rows <==> r.1 == Err(NotFound)
    ensures r.1.Err? ==> r.0 == db
    ensures r.1.Ok? ==>
      var p := db.projects.rows[id];
      && r.0.images == db.images
      && r.0.projects.rows == db.projects.rows[id := Project(p.cols, PendingUpdate, Some(payload))]
  {
    if id !in db.projects.rows then (db, Err(NotFound))
    else
      var p := db.projects.rows[id];
      (db.(projects := Put(db.projects, id, p.(status := PendingUpdate, envelope := Some(payload)))), Ok(()))
  }

  /** `solicitarExclusaoPorId`: from any status, PENDENTE_EXCLUSAO; the envelope is left as it was. */
  function RequestDeletion(db: Db, id: nat): (r: (Db, Result<()>))
    ensures id !in db.projects.rows <==> r.1 == Err(NotFound)
    ensures r.1.Err? ==> r.0 == db
    ensures r.1.Ok? ==>
      var p := db.projects.rows[id];
      && r.0.images == db.images
      && r.0.projects.rows == db.projects.rows[id := Project(p.cols, PendingDeletion, p.envelope)]
  {
    if id !in db.projects.rows then (db, Err(NotFound))
    else
      var p := db.projects.rows[id];
      (db.(projects := Put(db.projects, id, p.(status := PendingDeletion))), Ok(()))
  }

  /** `alterarStatusAtivo`: only the `ativo` column changes; the status never does. */
  function SetVisible(db: Db, id: nat, ativo: bool): (r: (Db, Result<()>))
    ensures id !in db.projects.rows <==> r.1 == Err(NotFound)
    ensures r.1.Err? ==> r.0 == db
    ensures r.1.Ok? ==>
      var p := db.projects.rows[id];
      && r.0.images == db.images
      && r.0.projects.rows == db.projects.rows[id := Project(p.cols["ativo" := Bool(ativo)], p.status, p.envelope)]
      && (Visible(r.0.projects.rows[id]) <==> ativo)
  {
    if id !in db.projects.rows then (db, Err(NotFound))
    else
      var p := db.projects.rows[id];
      (db.(projects := Put(db.projects, id, p.(cols := p.cols["ativo" := Bool(ativo)]))), Ok(()))
  }

  /** `listarTodos`: every ATIVO project, whatever its `ativo` flag, and nothing else. */
  function ListActive(db: Db): (r: seq<nat>)
    ensures forall id :: id in r <==> id in db.projects.rows && db.projects.rows[id].status == Active
  {
    FindAllOldestFirst(db.projects, (p: Project) => p.status == Active)
  }

  /** `buscarPorNome`: the ATIVO projects whose name contains `nome`. */
  function SearchByName(db: Db, nome: string): (r: seq<nat>)
    ensures forall id :: id in r <==>
      id in db.projects.rows && db.projects.rows[id].status == Active
      && Contains(TextOf(Get(db.projects.rows[id].cols, "nomeProjeto")), nome)
  {
    FindAllOldestFirst(db.projects, (p: Project) => p.status == Active && Contains(TextOf(Get(p.cols, "nomeProjeto")), nome))
  }

  /** `buscarPorId`: the project only while it is ATIVO. */
  function FindActive(db: Db, id: nat): (r: Option<Project>)
    ensures r.Some? <==> id in db.projects.rows && db.projects.rows[id].status == Active
    ensures r.Some? ==> r.value == db.projects.rows[id]
  {
    if id in db.projects.rows && db.projects.rows[id].status == Active then Some(db.projects.rows[id]) else None
  }

  /** The three groups of pending requests. */
  datatype Pending = Pending(cadastros: seq<nat>, atualizacoes: seq<nat>, exclusoes: seq<nat>)

  /** `listarPendentes` (and the admin's `getPending`): one group per pending status. */
  function ListPending(db: Db): (r: Pending)
    ensures forall id :: id in r.cadastros <==> id in db.projects.rows && db.projects.rows[id].status == PendingApproval
    ensures forall id :: id in r.atualizacoes <==> id in db.projects.rows && db.projects.rows[id].status == PendingUpdate
    ensures forall id :: id in r.exclusoes <==> id in db.projects.rows && db.projects.rows[id].status == PendingDeletion
  {
    Pending(
      FindAllOldestFirst(db.projects, (p: Project) => p.status == PendingApproval),
      FindAllOldestFirst(db.projects, (p: Project) => p.status == PendingUpdate),
      FindAllOldestFirst(db.projects, (p: Project) => p.status == PendingDeletion))
  }

  /** The three groups are pairwise disjoint, and a project is in one of them exactly when it is pending. */
  lemma PendingGroupsPartition(db: Db, id: nat)
    ensures var g := ListPending(db);
      && !(id in g.cadastros && id in g.atualizacoes)
      && !(id in g.cadastros && id in g.exclusoes)
      && !(id in g.atualizacoes && id in g.exclusoes)
      && (id in g.cadastros + g.atualizacoes + g.exclusoes <==>
          id in db.projects.rows && db.projects.rows[id].status in {PendingApproval, PendingUpdate, PendingDeletion})
  {
  }
}
