/**
 The moderation lifecycle as a whole: every project-changing request (of the project service,
 the admin and the older establishment service), the invariant they all keep, and traces
 through them.
 */
module Lifecycle {
  import opened Wrappers
  import opened Json
  import opened Tables
  import opened ProjectEntity
  import opened ProjectService
  import opened Admin
  import LegacyEstablishments

  /** One request that changes the project store. */
  datatype Step =
    | Submit(dados: Object)
    | AskUpdate(id: nat, payload: Object)
    | AskDeletion(id: nat)
    | Toggle(id: nat, ativo: bool)
    | Approval(id: nat, fails: set<string>)
    | Rejection(id: nat, fails: set<string>)
    | Establish(dados: Object, lookup: Result<LegacyEstablishments.CnpjRecord>)
    | AskUpdateByCnpj(cnpj: string, payload: Object)
    | AskDeletionByCnpj(cnpj: string, motivo: string)

  /** The world after one step, whatever its reply. */
  function Apply(w: World, s: Step): World {
    match s
    case Submit(dados) => w.(db := Create(w.db, dados).0)
    case AskUpdate(id, payload) => w.(db := RequestUpdate(w.db, id, payload).0)
    case AskDeletion(id) => w.(db := RequestDeletion(w.db, id).0)
    case Toggle(id, ativo) => w.(db := SetVisible(w.db, id, ativo).0)
    case Approval(id, fails) => Approve(w, id, fails).0
    case Rejection(id, fails) => Reject(w, id, fails).0
    case Establish(dados, lookup) => w.(db := LegacyEstablishments.Register(w.db, dados, lookup).0)
    case AskUpdateByCnpj(cnpj, payload) => w.(db := LegacyEstablishments.RequestUpdateByCnpj(w.db, cnpj, payload).0)
    case AskDeletionByCnpj(cnpj, motivo) => w.(db := LegacyEstablishments.RequestDeletionByCnpj(w.db, cnpj, motivo).0)
  }

  /** The world after a sequence of steps, in order. */
  function Run(w: World, steps: seq<Step>): World
    decreases |steps|
  {
    if |steps| == 0 then w else Run(Apply(w, steps[0]), steps[1..])
  }

  /**
   What every stored project satisfies: it is never REJEITADO, its strings fit their columns,
   a pending update carries its envelope, and an ATIVO or newly submitted project carries none.
   */
  predicate WellStated(p: Project) {
    && p.status != Rejected
    && Fits(p.cols)
    && (p.status == PendingUpdate ==> p.envelope.Some?)
    && (p.status in {Active, PendingApproval} ==> p.envelope.None?)
  }

  predicate Inv(db: Db) {
    && ImagesBelowNext(db)
    && forall id :: id in db.projects.rows ==> WellStated(db.projects.rows[id])
  }

  lemma EmptyInv()
    ensures Inv(Db(Empty(), []))
  {
  }

  /** Setting `ativo` never breaks a length bound: the column is BOOLEAN. */
  lemma FitsWithAtivo(cols: Object, b: bool)
    requires Fits(cols)
    ensures Fits(cols["ativo" := Bool(b)])
  {
    assert MaxLength("ativo").None?;
  }

  /** Removing rows and appending rows of a handed-out id keeps every image below the counter. */
  lemma {:induction false} WithoutImagesOfBelow(rows: seq<ImageRow>, id: nat, next: nat)
    requires forall k :: 0 <= k < |rows| ==> rows[k].projetoId < next
    ensures forall k :: 0 <= k < |WithoutImagesOf(rows, id)| ==> WithoutImagesOf(rows, id)[k].projetoId < next
    decreases |rows|
  {
    if |rows| > 0 {
      WithoutImagesOfBelow(rows[1..], id, next);
    }
  }

  lemma CreateKeepsInv(db: Db, dados: Object)
    requires Inv(db)
    ensures Inv(Create(db, dados).0)
  {
    var (db', r) := Create(db, dados);
    if r.Ok? {
      var cols := CreationColumns(dados);
      assert Fits(cols);
      FitsWithAtivo(cols, false);
      assert db'.projects.rows[r.value] == NewProject(cols);
    }
  }

  lemma ApproveKeepsInv(w: World, id: nat, fails: set<string>)
    requires Inv(w.db)
    ensures Inv(Approve(w, id, fails).0.db)
  {
    if id in w.db.projects.rows {
      var p := w.db.projects.rows[id];
      if p.status == PendingApproval {
        FitsWithAtivo(p.cols, true);
      } else if p.status == PendingUpdate && p.envelope.Some? {
        var env := p.envelope.value;
        var imgs := Get(env, "imagens");
        if imgs.Arr? {
          WithoutImagesOfBelow(w.db.images, id, w.db.projects.next);
        }
      }
    }
  }

  /** An establishment's registration keeps the invariant: its values fit, and its image rows name the new id. */
  lemma RegisterKeepsInv(db: Db, dados: Object, lookup: Result<LegacyEstablishments.CnpjRecord>)
    requires Inv(db)
    ensures Inv(LegacyEstablishments.Register(db, dados, lookup).0)
  {
    var (db', r) := LegacyEstablishments.Register(db, dados, lookup);
    if r.Ok? {
      var cols := LegacyEstablishments.RegistrationColumns(dados);
      FitsWithAtivo(cols, false);
      assert db'.projects.rows[r.value] == NewProject(cols);
      var urls := Get(dados, "Projetos");
      if urls.Arr? {
        var added := RowsFor(urls.items, r.value);
        assert forall k :: 0 <= k < |added| ==> added[k].projetoId == r.value;
        assert db'.images == db.images + added;
      }
    }
  }

  /** Every step keeps the invariant. */
  lemma StepKeepsInv(w: World, s: Step)
    requires Inv(w.db)
    ensures Inv(Apply(w, s).db)
  {
    match s
    case Submit(dados) => CreateKeepsInv(w.db, dados);
    case AskUpdate(id, payload) =>
    case AskDeletion(id) =>
    case Toggle(id, ativo) =>
      if id in w.db.projects.rows {
        FitsWithAtivo(w.db.projects.rows[id].cols, ativo);
      }
    case Approval(id, fails) => ApproveKeepsInv(w, id, fails);
    case Rejection(id, fails) =>
    case Establish(dados, lookup) => RegisterKeepsInv(w.db, dados, lookup);
    case AskUpdateByCnpj(cnpj, payload) =>
    case AskDeletionByCnpj(cnpj, motivo) =>
  }

  lemma {:induction false} RunKeepsInv(w: World, steps: seq<Step>)
    requires Inv(w.db)
    ensures Inv(Run(w, steps).db)
    decreases |steps|
  {
    if |steps| > 0 {
      StepKeepsInv(w, steps[0]);
      RunKeepsInv(Apply(w, steps[0]), steps[1..]);
    }
  }

  /** REJEITADO is unreachable: from an empty store, no sequence of requests produces it. */
  lemma NeverRejected(fs: set<string>, steps: seq<Step>, id: nat)
    ensures var db := Run(World(Db(Empty(), []), fs), steps).db;
      id in db.projects.rows ==> db.projects.rows[id].status != Rejected
  {
    EmptyInv();
    RunKeepsInv(World(Db(Empty(), []), fs), steps);
  }

  /** The happy path: a submission, once approved, is ATIVO, visible and publicly listed. */
  lemma SubmitThenApprove(w: World, dados: Object, fails: set<string>)
    requires Create(w.db, dados).1.Ok?
    ensures var id := Create(w.db, dados).1.value;
      var w1 := Apply(w, Submit(dados));
      var w2 := Apply(w1, Approval(id, fails));
      && w1.db.projects.rows[id].status == PendingApproval && !Visible(w1.db.projects.rows[id])
      && w2.db.projects.rows[id].status == Active && Visible(w2.db.projects.rows[id])
      && id in ListActive(w2.db) && FindActive(w2.db, id).Some?
  {
    var id := Create(w.db, dados).1.value;
    var w1 := Apply(w, Submit(dados));
    var p := NewProject(CreationColumns(dados));
    assert w1.db.projects.rows[id] == p;
    var w2 := Apply(w1, Approval(id, fails));
    assert w2.db.projects.rows[id] == Project(p.cols["ativo" := Bool(true)], Active, p.envelope);
  }

  /**
   A submission the admin never approved becomes public: asking to delete it and having that
   deletion rejected sets it ATIVO, so it is listed, although its `ativo` flag stays false.
   */
  lemma UnapprovedBecomesListed(w: World, dados: Object, fails: set<string>)
    requires Create(w.db, dados).1.Ok?
    ensures var id := Create(w.db, dados).1.value;
      var w1 := Apply(w, Submit(dados));
      var w3 := Apply(Apply(w1, AskDeletion(id)), Rejection(id, fails));
      && id !in ListActive(w1.db)
      && id in ListActive(w3.db) && FindActive(w3.db, id).Some?
      && !Visible(w3.db.projects.rows[id])
  {
    var id := Create(w.db, dados).1.value;
    var w1 := Apply(w, Submit(dados));
    var p := NewProject(CreationColumns(dados));
    assert w1.db.projects.rows[id] == p;
    var w2 := Apply(w1, AskDeletion(id));
    assert w2.db.projects.rows[id] == Project(p.cols, PendingDeletion, p.envelope);
    var w3 := Apply(w2, Rejection(id, fails));
    assert w3.db.projects.rows[id] == Project(p.cols, Active, None);
  }

  /** An approval's outcome: a 200, the project ATIVO with the given text, and exactly the given image list. */
  predicate AppliedUpdate(r: (World, Reply), id: nat, descricao: string, urls: seq<Value>) {
    && r.1 == Reply(200, ApprovedMsg)
    && id in r.0.db.projects.rows
    && r.0.db.projects.rows[id].status == Active
    && "descricao" in r.0.db.projects.rows[id].cols
    && r.0.db.projects.rows[id].cols["descricao"] == Str(descricao)
    && ImagesOf(r.0.db.images, id) == urls
  }

  /** Approving an update request applies exactly the requested text and image list. */
  lemma UpdateThenApprove(w: World, id: nat, descricao: string, urls: seq<Value>, fails: set<string>)
    requires id in w.db.projects.rows && |descricao| <= 500 && Fits(w.db.projects.rows[id].cols)
    ensures var payload := map["descricao" := Str(descricao), "imagens" := Arr(urls)];
      var w1 := Apply(w, AskUpdate(id, payload));
      AppliedUpdate(Approve(w1, id, fails), id, descricao, urls)
  {
    var payload := map["descricao" := Str(descricao), "imagens" := Arr(urls)];
    var w1 := Apply(w, AskUpdate(id, payload));
    assert w1.db.projects.rows[id] == Project(w.db.projects.rows[id].cols, PendingUpdate, Some(payload));
    ApproveTextAndImages(w1, id, descricao, urls, fails);
  }

  /** The approval half of `UpdateThenApprove`, from the pending row it leaves behind. */
  lemma ApproveTextAndImages(w: World, id: nat, descricao: string, urls: seq<Value>, fails: set<string>)
    requires id in w.db.projects.rows && |descricao| <= 500 && Fits(w.db.projects.rows[id].cols)
    requires w.db.projects.rows[id].status == PendingUpdate
    requires w.db.projects.rows[id].envelope == Some(map["descricao" := Str(descricao), "imagens" := Arr(urls)])
    ensures AppliedUpdate(Approve(w, id, fails), id, descricao, urls)
  {
    var p := w.db.projects.rows[id];
    var payload := p.envelope.value;
    assert UpdateValues(payload) == map["descricao" := Str(descricao)];
    var cols := Merge(p.cols, UpdateValues(payload));
    assert cols == p.cols["descricao" := Str(descricao)];
    assert Fits(cols);
    ApproveEnvelopeUnfolds(w, id, fails);
    ApproveReplacesImages(w, id, fails, id);
  }
}
