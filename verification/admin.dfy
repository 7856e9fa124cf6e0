/**
 The admin's moderation decisions. `Approve` runs in one transaction: on a failure the database
 is rolled back, but files already unlinked stay unlinked. `Reject` runs without a transaction.
 Unlinking is best-effort: the paths in `fails` are those whose unlink throws, which is logged
 and never aborts the decision.
 */
module Admin {
  import opened Wrappers
  import opened Json
  import opened Tables
  import opened FileSystem
  import opened ProjectEntity
  import opened ProjectService

  /** The database together with the uploads area, which no transaction covers. */
  datatype World = World(db: Db, fs: Fs)

  const NotFoundMsg := "Projeto não encontrado."
  const ApprovedMsg := "Solicitação aprovada com sucesso."
  const DeletedMsg := "Projeto excluído com sucesso."
  const ApproveFailedMsg := "Erro ao aprovar a solicitação."
  const RejectedMsg := "Solicitação rejeitada com sucesso."

  /** The file a stored URL points at; non-string and empty URLs make the unlink throw, so none. */
  function FileOf(v: Value): set<string> {
    if v.Str? && v.s != "" then {v.s} else {}
  }

  /** The files of a list of stored URLs. */
  function FilesOf(urls: seq<Value>): set<string> {
    set i, p | 0 <= i < |urls| && p in FileOf(urls[i]) :: p
  }

  /** `projeto.update(values)`: every key that is a declared column is written; others are dropped. */
  function Merge(cols: Object, values: Object): (r: Object)
    ensures forall k :: k in values && k in Columns ==> k in r && r[k] == values[k]
    ensures forall k :: k in cols && !(k in values && k in Columns) ==> k in r && r[k] == cols[k]
    ensures forall k :: k in r ==> k in cols || (k in values && k in Columns)
  {
    cols + (map k | k in values.Keys * Columns :: values[k])
  }

  /** The values the update branch writes: the envelope, with `logo` renamed to `logoUrl` when truthy and `imagens` taken out when it is an array. */
  function UpdateValues(env: Object): Object {
    var logo := Get(env, "logo");
    var withLogo := if Truthy(logo) then (env - {"logo"})["logoUrl" := logo] else env;
    if Get(env, "imagens").Arr? then withLogo - {"imagens"} else withLogo
  }

  /** `after` is `before` with each target whose unlink does not fail removed, and nothing else changed. */
  ghost predicate Unlinked(before: Fs, targets: set<string>, fails: set<string>, after: Fs) {
    forall f :: f in after <==> f in before && (f !in targets || f in fails)
  }

  /**
   The files an envelope approval unlinks: the old logo when the envelope has a truthy `logo`,
   and every old image when it has an `imagens` array.
   */
  function Replaced(w: World, id: nat, env: Object): set<string>
    requires id in w.db.projects.rows
  {
    (if Truthy(Get(env, "logo")) then FileOf(Get(w.db.projects.rows[id].cols, "logoUrl")) else {})
    + (if Get(env, "imagens").Arr? then FilesOf(ImagesOf(w.db.images, id)) else {})
  }

  /**
   The files and images of an envelope approval: the replaced files are unlinked (unless the
   unlink fails), and without an `imagens` array the image table is untouched.
   */
  ghost predicate EnvelopeFiles(w: World, id: nat, env: Object, fails: set<string>, after: World)
    requires id in w.db.projects.rows
  {
    && Unlinked(w.fs, Replaced(w, id, env), fails, after.fs)
    && (!Get(env, "imagens").Arr? ==> after.db.images == w.db.images)
  }

  /**
   The approval of a PENDENTE_ATUALIZACAO project that carries an envelope. The unlinks happen
   before the row update, so they stand even when the transaction rolls back.
   */
  function ApplyEnvelope(w: World, id: nat, env: Object, fails: set<string>): (r: World)
    requires id in w.db.projects.rows
    ensures EnvelopeFiles(w, id, env, fails, r)
  {
    var p := w.db.projects.rows[id];
    var logo := Get(env, "logo");
    var fs1 := if Truthy(logo) then UnlinkAll(w.fs, FileOf(Get(p.cols, "logoUrl")), fails) else w.fs;
    var imgs := Get(env, "imagens");
    var fs2 := if imgs.Arr? then UnlinkAll(fs1, FilesOf(ImagesOf(w.db.images, id)), fails) else fs1;
    var images := if imgs.Arr? then WithoutImagesOf(w.db.images, id) + RowsFor(imgs.items, id) else w.db.images;
    var cols := Merge(p.cols, UpdateValues(env));
    if !Fits(cols) then World(w.db, fs2)
    else World(Db(Put(w.db.projects, id, Project(cols, Active, None)), images), fs2)
  }

  /** The reply to an envelope approval: success unless a value overflows its column. */
  function EnvelopeReply(w: World, id: nat, env: Object): Reply
    requires id in w.db.projects.rows
  {
    if Fits(Merge(w.db.projects.rows[id].cols, UpdateValues(env))) then Reply(200, ApprovedMsg)
    else Reply(500, ApproveFailedMsg)
  }

  /** `approveRequest`. */
  function Approve(w: World, id: nat, fails: set<string>): (r: (World, Reply))
    // unknown id: 404, nothing changes
    ensures id !in w.db.projects.rows <==> r.1.code == 404
    ensures id !in w.db.projects.rows ==> r.0 == w
    // a new submission: ATIVO with `ativo` true, nothing else changes
    ensures id in w.db.projects.rows && w.db.projects.rows[id].status == PendingApproval ==>
      var p := w.db.projects.rows[id];
      && r.1 == Reply(200, ApprovedMsg) && r.0.fs == w.fs && r.0.db.images == w.db.images
      && r.0.db.projects.rows == w.db.projects.rows[id := Project(p.cols["ativo" := Bool(true)], Active, p.envelope)]
    // an update request without envelope: ATIVO, envelope cleared, nothing else changes
    ensures (id in w.db.projects.rows && w.db.projects.rows[id].status == PendingUpdate
             && w.db.projects.rows[id].envelope.None?) ==>
      var p := w.db.projects.rows[id];
      && r.1 == Reply(200, ApprovedMsg) && r.0.fs == w.fs && r.0.db.images == w.db.images
      && r.0.db.projects.rows == w.db.projects.rows[id := Project(p.cols, Active, None)]
    // an update request with envelope: ATIVO with the envelope merged, or a rollback of the database
    ensures (id in w.db.projects.rows && w.db.projects.rows[id].status == PendingUpdate
             && w.db.projects.rows[id].envelope.Some?) ==>
      var p := w.db.projects.rows[id];
      var cols := Merge(p.cols, UpdateValues(p.envelope.value));
      && (Fits(cols) ==>
            r.1 == Reply(200, ApprovedMsg) && r.0.db.projects.rows == w.db.projects.rows[id := Project(cols, Active, None)])
      && (!Fits(cols) ==> r.1 == Reply(500, ApproveFailedMsg) && r.0.db == w.db)
      // the old logo and image files go, whether or not the row update then fails
      && EnvelopeFiles(w, id, p.envelope.value, fails, r.0)
    // a deletion request: the row is destroyed
    ensures id in w.db.projects.rows && w.db.projects.rows[id].status == PendingDeletion ==>
      && r.1 == Reply(200, DeletedMsg) && r.0.fs == w.fs && r.0.db.images == w.db.images
      && r.0.db.projects.rows.Keys == w.db.projects.rows.Keys - {id}
      && forall k :: k in r.0.db.projects.rows ==> r.0.db.projects.rows[k] == w.db.projects.rows[k]
    // ATIVO or REJEITADO: no case matches, nothing changes, success is still reported
    ensures id in w.db.projects.rows && w.db.projects.rows[id].status in {Active, Rejected} ==>
      r == (w, Reply(200, ApprovedMsg))
    ensures r.0.db.projects.next == w.db.projects.next
  {
    if id !in w.db.projects.rows then (w, Reply(404, NotFoundMsg))
    else
      var p := w.db.projects.rows[id];
      match p.status
      case PendingApproval =>
        var p' := Project(p.cols["ativo" := Bool(true)], Active, p.envelope);
        (World(w.db.(projects := Put(w.db.projects, id, p')), w.fs), Reply(200, ApprovedMsg))
      case PendingUpdate =>
        if p.envelope.None? then
          (World(w.db.(projects := Put(w.db.projects, id, Project(p.cols, Active, None))), w.fs), Reply(200, ApprovedMsg))
        else
          (ApplyEnvelope(w, id, p.envelope.value, fails), EnvelopeReply(w, id, p.envelope.value))
      case PendingDeletion =>
        (World(w.db.(projects := Delete(w.db.projects, id)), w.fs), Reply(200, DeletedMsg))
      case Active => (w, Reply(200, ApprovedMsg))
      case Rejected => (w, Reply(200, ApprovedMsg))
  }

  /**
   Approving an envelope whose `imagens` is an array replaces the project's image set by exactly
   those URLs, in order; every other project keeps its images.
   */
  lemma ApproveReplacesImages(w: World, id: nat, fails: set<string>, other: nat)
    requires id in w.db.projects.rows && w.db.projects.rows[id].status == PendingUpdate
    requires w.db.projects.rows[id].envelope.Some?
    requires Get(w.db.projects.rows[id].envelope.value, "imagens").Arr?
    requires Approve(w, id, fails).1.code == 200
    ensures ImagesOf(Approve(w, id, fails).0.db.images, id) == Get(w.db.projects.rows[id].envelope.value, "imagens").items
    ensures other != id ==> ImagesOf(Approve(w, id, fails).0.db.images, other) == ImagesOf(w.db.images, other)
  {
    var urls := Get(w.db.projects.rows[id].envelope.value, "imagens").items;
    var kept := WithoutImagesOf(w.db.images, id);
    assert Approve(w, id, fails).0.db.images == kept + RowsFor(urls, id);
    ImagesOfAppend(kept, RowsFor(urls, id), id);
    ImagesOfAppend(kept, RowsFor(urls, id), other);
    WithoutImagesOfSpec(w.db.images, id, other);
    ImagesOfRowsFor(urls, id, other);
  }

  /**
   Approving an envelope with a truthy `logo` makes it the `logoUrl` and unlinks the old logo
   file unless that unlink fails; the approval goes through either way.
   */
  lemma ApproveReplacesLogo(w: World, id: nat, fails: set<string>)
    requires id in w.db.projects.rows && w.db.projects.rows[id].status == PendingUpdate
    requires w.db.projects.rows[id].envelope.Some?
    requires Truthy(Get(w.db.projects.rows[id].envelope.value, "logo"))
    ensures var p := w.db.projects.rows[id];
      var r := Approve(w, id, fails);
      && (r.1.code == 200 ==> r.0.db.projects.rows[id].cols["logoUrl"] == Get(p.envelope.value, "logo"))
      && (forall f :: f in FileOf(Get(p.cols, "logoUrl")) && f !in fails ==> f !in r.0.fs)
  {
    var p := w.db.projects.rows[id];
    var env := p.envelope.value;
    assert UpdateValues(env)["logoUrl"] == Get(env, "logo");
  }

  /**
   Every envelope key that is a column is copied verbatim (there is no allow-list), except
   `logoUrl` when a truthy `logo` overrides it; the other columns keep their values, so
   `ativo` changes only if the envelope itself carries it.
   */
  lemma ApproveCopiesEnvelope(w: World, id: nat, fails: set<string>, k: string)
    requires id in w.db.projects.rows && w.db.projects.rows[id].status == PendingUpdate
    requires w.db.projects.rows[id].envelope.Some?
    requires Approve(w, id, fails).1.code == 200
    requires k in Columns && !(k == "logoUrl" && Truthy(Get(w.db.projects.rows[id].envelope.value, "logo")))
    ensures var p := w.db.projects.rows[id];
      var rows := Approve(w, id, fails).0.db.projects.rows;
      && id in rows
      && (k in p.envelope.value ==> k in rows[id].cols && rows[id].cols[k] == p.envelope.value[k])
      && (k !in p.envelope.value && k in p.cols ==> k in rows[id].cols && rows[id].cols[k] == p.cols[k])
  {
    var p := w.db.projects.rows[id];
    ApproveEnvelopeUnfolds(w, id, fails);
    MergeCopies(p.cols, p.envelope.value, k);
  }

  /** Merging an envelope copies each of its columns and keeps every other stored column. */
  lemma MergeCopies(cols: Object, env: Object, k: string)
    requires k in Columns && !(k == "logoUrl" && Truthy(Get(env, "logo")))
    ensures var m := Merge(cols, UpdateValues(env));
      && (k in env ==> k in m && m[k] == env[k])
      && (k !in env && k in cols ==> k in m && m[k] == cols[k])
  {
    var values := UpdateValues(env);
    assert "logo" !in Columns && "imagens" !in Columns;
    if k in env {
      assert k in values && values[k] == env[k];
    } else {
      assert k !in values;
    }
  }


  /** Approving a pending update that carries an envelope applies it, and stores it when it fits. */
  lemma ApproveEnvelopeUnfolds(w: World, id: nat, fails: set<string>)
    requires id in w.db.projects.rows && w.db.projects.rows[id].status == PendingUpdate
    requires w.db.projects.rows[id].envelope.Some?
    ensures var p := w.db.projects.rows[id];
      var cols := Merge(p.cols, UpdateValues(p.envelope.value));
      var r := Approve(w, id, fails);
      && (r.1.code == 200 <==> Fits(cols))
      && (Fits(cols) ==> id in r.0.db.projects.rows && r.0.db.projects.rows[id] == Project(cols, Active, None))
  {
    var p := w.db.projects.rows[id];
    assert Approve(w, id, fails) == (ApplyEnvelope(w, id, p.envelope.value, fails), EnvelopeReply(w, id, p.envelope.value));
  }

  /**
   A rolled-back approval of an envelope with an `imagens` array has already unlinked the old
   image files, while the restored image rows still name them.
   */
  lemma RollbackKeepsStaleImages(w: World, id: nat, fails: set<string>, i: nat)
    requires id in w.db.projects.rows && w.db.projects.rows[id].status == PendingUpdate
    requires w.db.projects.rows[id].envelope.Some?
    requires Get(w.db.projects.rows[id].envelope.value, "imagens").Arr?
    requires Approve(w, id, fails).1.code == 500
    requires i < |ImagesOf(w.db.images, id)| && ImagesOf(w.db.images, id)[i].Str?
    requires ImagesOf(w.db.images, id)[i].s != "" && ImagesOf(w.db.images, id)[i].s !in fails
    ensures var r := Approve(w, id, fails);
      && ImagesOf(r.0.db.images, id)[i] == ImagesOf(w.db.images, id)[i]
      && ImagesOf(w.db.images, id)[i].s !in r.0.fs
  {
    var urls := ImagesOf(w.db.images, id);
    assert urls[i].s in FileOf(urls[i]);
    assert urls[i].s in FilesOf(urls);
  }

  /** `rejectRequest`. */
  function Reject(w: World, id: nat, fails: set<string>): (r: (World, Reply))
    ensures id !in w.db.projects.rows <==> r.1.code == 404
    ensures id !in w.db.projects.rows ==> r.0 == w
    // a new submission: its logo and image files are unlinked (best-effort) and the row destroyed
    ensures id in w.db.projects.rows && w.db.projects.rows[id].status == PendingApproval ==>
      var p := w.db.projects.rows[id];
      var files := FileOf(Get(p.cols, "logoUrl")) + FilesOf(ImagesOf(w.db.images, id));
      && r.1 == Reply(200, RejectedMsg)
      && r.0.db.projects.rows.Keys == w.db.projects.rows.Keys - {id}
      && (forall k :: k in r.0.db.projects.rows ==> r.0.db.projects.rows[k] == w.db.projects.rows[k])
      && r.0.db.images == w.db.images
      && r.0.fs == UnlinkAll(w.fs, files, fails)
    // anything else, ATIVO included: back to ATIVO with the envelope cleared, nothing else changes
    ensures id in w.db.projects.rows && w.db.projects.rows[id].status != PendingApproval ==>
      var p := w.db.projects.rows[id];
      && r.1 == Reply(200, RejectedMsg) && r.0.fs == w.fs && r.0.db.images == w.db.images
      && r.0.db.projects.rows == w.db.projects.rows[id := Project(p.cols, Active, None)]
    ensures r.0.db.projects.next == w.db.projects.next
  {
    if id !in w.db.projects.rows then (w, Reply(404, NotFoundMsg))
    else
      var p := w.db.projects.rows[id];
      if p.status == PendingApproval then
        var files := FileOf(Get(p.cols, "logoUrl")) + FilesOf(ImagesOf(w.db.images, id));
        (World(w.db.(projects := Delete(w.db.projects, id)), UnlinkAll(w.fs, files, fails)), Reply(200, RejectedMsg))
      else
        (World(w.db.(projects := Put(w.db.projects, id, Project(p.cols, Active, None))), w.fs), Reply(200, RejectedMsg))
  }
}
