/**
 The older establishment service kept beside the project service: a registration that first
 checks the establishment's CNPJ record (MEI, registration status, municipality), then refuses
 a taken contact email or CNPJ, and requests addressed by CNPJ rather than by id. Its rows are
 the project rows, holding the attributes this service writes.
 */
module LegacyEstablishments {
  import opened Wrappers
  import opened Json
  import opened Text
  import opened Tables
  import opened ProjectEntity
  import opened ProjectService

  const CnpjRequired := "O campo CNPJ é obrigatório."
  const EmailInUse := "E-mail já cadastrado no sistema."
  const CnpjInUse := "CNPJ já cadastrado no sistema."
  /** The TypeError raised when `Projetos` is a non-empty string, which has no `map`. */
  const ProjetosNotAFunction := "dados.Projetos.map is not a function"
  const HomeCity := "SAQUAREMA"

  /**
   What the CNPJ lookup returns, as this service reads it: the MEI option, the size label, the
   registration status as `String()` renders it, and the municipality when there is one.
   */
  datatype CnpjRecord = CnpjRecord(opcaoPeloMei: Value, porte: string, situacao: string, municipio: Option<string>)

  function NotMei(porte: string): string {
    "O CNPJ não corresponde a um MEI. O porte identificado foi: \"" + porte + "\"."
  }

  function BadSituation(shown: string): string {
    "O CNPJ está com a situação \"" + shown
      + "\". Apenas CNPJs com situação \"ATIVA\" são permitidos. Em caso de dúvidas, entre em contato com a Sala do Empreendedor."
  }

  function WrongCity(city: string): string {
    "Este CNPJ pertence à cidade de " + city
      + ". Apenas CNPJs de Saquarema são permitidos. Em caso de dúvidas, entre em contato com a Sala do Empreendedor."
  }

  /** The status codes the error message spells out. */
  const LabelledCodes: set<string> := {"1", "01", "3", "03", "4", "04", "8", "08"}

  /** The status the error message names: the label of a known code, otherwise the code itself. */
  function StatusLabel(situacao: string): (r: string)
    ensures r != situacao <==> situacao in LabelledCodes
    ensures situacao in LabelledCodes ==> r in {"NULA", "SUSPENSA", "INAPTA", "BAIXADA"}
  {
    if situacao in {"1", "01"} then "NULA"
    else if situacao in {"3", "03"} then "SUSPENSA"
    else if situacao in {"4", "04"} then "INAPTA"
    else if situacao in {"8", "08"} then "BAIXADA"
    else situacao
  }

  /**
   Every one-character code and its zero-padded spelling are labelled alike: both or neither
   are known codes, and a known pair gets the same label.
   */
  lemma {:induction false} PaddedCodesAgree(c: string)
    requires |c| == 1
    ensures "0" + c in LabelledCodes <==> c in LabelledCodes
    ensures c in LabelledCodes ==> StatusLabel("0" + c) == StatusLabel(c)
  {
    var z := "0" + c;
    assert |z| == 2 && z[0] == '0' && z[1] == c[0];
    if c in LabelledCodes {
      assert c == [c[0]];
      assert c[0] in {'1', '3', '4', '8'};
      assert z == ['0', c[0]];
    } else {
      assert c == z[1..];
      assert forall x :: x in LabelledCodes && |x| == 2 ==> x[1..] in LabelledCodes;
    }
  }

  /** Each of the three conditions on a CNPJ record. */
  predicate IsMei(rec: CnpjRecord) {
    rec.opcaoPeloMei == Bool(true)
  }

  predicate IsRegistered(rec: CnpjRecord) {
    rec.situacao == "ATIVA" || rec.situacao == "2"
  }

  predicate InHomeCity(rec: CnpjRecord) {
    rec.municipio.Some? && Upper(rec.municipio.value) == HomeCity
  }

  /**
   The checks before the transaction, in order: a CNPJ is given, the lookup succeeds (its error
   message is passed on), the record is a MEI, its status is active, its city is Saquarema.
   `lookup` is the outcome of the lookup of `dados.cnpj`.
   */
  function Eligibility(dados: Object, lookup: Result<CnpjRecord>): (r: Result<()>)
    ensures r.Ok? <==> Truthy(Get(dados, "cnpj")) && lookup.Ok? && IsMei(lookup.value)
                       && IsRegistered(lookup.value) && InHomeCity(lookup.value)
    ensures !Truthy(Get(dados, "cnpj")) ==> r == Err(CnpjRequired)
    ensures Truthy(Get(dados, "cnpj")) && lookup.Err? ==> r == Err(lookup.message)
    ensures Truthy(Get(dados, "cnpj")) && lookup.Ok? ==>
      var rec := lookup.value;
      && (!IsMei(rec) ==> r == Err(NotMei(rec.porte)))
      && (IsMei(rec) && !IsRegistered(rec) ==> r == Err(BadSituation(StatusLabel(rec.situacao))))
      && (IsMei(rec) && IsRegistered(rec) && !InHomeCity(rec) ==>
            r == Err(WrongCity(if Filled(rec.municipio) then rec.municipio.value else "desconhecida")))
  {
    if !Truthy(Get(dados, "cnpj")) then Err(CnpjRequired)
    else if lookup.Err? then Err(lookup.message)
    else
      var rec := lookup.value;
      if !IsMei(rec) then Err(NotMei(rec.porte))
      else if !IsRegistered(rec) then Err(BadSituation(StatusLabel(rec.situacao)))
      else if !InHomeCity(rec) then Err(WrongCity(if Filled(rec.municipio) then rec.municipio.value else "desconhecida"))
      else Ok(())
  }

  /** The city check ignores ASCII case: two spellings of the municipality that agree up to case pass or fail together. */
  lemma CityCaseIgnored(rec: CnpjRecord, other: string)
    requires rec.municipio.Some? && Lower(other) == Lower(rec.municipio.value)
    ensures InHomeCity(rec.(municipio := Some(other))) <==> InHomeCity(rec)
  {
    var m := rec.municipio.value;
    assert |other| == |m|;
    forall i | 0 <= i < |m| ensures Upper(other)[i] == Upper(m)[i] {
      assert LowerChar(other[i]) == LowerChar(m[i]);
    }
    assert Upper(other) == Upper(m);
  }

  /**
   Each column a registration fills and the request key it reads: the names mostly agree, the
   person fields are read in snake case and the two URLs from `logo` and `ccmei`.
   */
  const Sources: map<string, string> := map[
    "nomeFantasia" := "nomeFantasia", "cnpj" := "cnpj", "categoria" := "categoria",
    "nomeResponsavel" := "nome_responsavel", "cpfResponsavel" := "cpf_responsavel", "cnae" := "cnae",
    "emailProjeto" := "emailProjeto", "contatoProjeto" := "contatoProjeto", "endereco" := "endereco",
    "descricao" := "descricao", "descricaoDiferencial" := "descricaoDiferencial",
    "areasAtuacao" := "areasAtuacao", "tagsInvisiveis" := "tagsInvisiveis", "website" := "website",
    "instagram" := "instagram", "logoUrl" := "logo", "ccmeiUrl" := "ccmei"]

  /** The columns of a registration, each read from its request key. */
  function RegistrationColumns(dados: Object): (cols: Object)
    ensures cols.Keys == Sources.Keys && "ativo" !in cols
    ensures forall k :: k in Sources ==> cols[k] == Get(dados, Sources[k])
  {
    map k | k in Sources :: Get(dados, Sources[k])
  }

  /** Some project already holds `v` in column `col`. */
  predicate Taken(db: Db, col: string, v: Value) {
    exists id :: id in db.projects.rows && Get(db.projects.rows[id].cols, col) == v
  }

  /**
   `cadastrarProjetoComImagens`: the eligibility checks, then one transaction that refuses a
   taken contact email, then a taken CNPJ, then a value too long for its column (the insert
   throws), and otherwise inserts the row with its defaults and one image row per URL of a
   non-empty `Projetos` array. Any failure rolls everything back.
   */
  function Register(db: Db, dados: Object, lookup: Result<CnpjRecord>): (r: (Db, Result<nat>))
    ensures r.1.Err? ==> r.0 == db
    ensures Eligibility(dados, lookup).Err? ==> r.1 == Err(Eligibility(dados, lookup).message)
    ensures Eligibility(dados, lookup).Ok? ==>
      && (Taken(db, "emailProjeto", Get(dados, "emailProjeto")) ==> r.1 == Err(EmailInUse))
      && (!Taken(db, "emailProjeto", Get(dados, "emailProjeto")) && Taken(db, "cnpj", Get(dados, "cnpj")) ==>
            r.1 == Err(CnpjInUse))
      && (!Taken(db, "emailProjeto", Get(dados, "emailProjeto")) && !Taken(db, "cnpj", Get(dados, "cnpj")) && !Fits(RegistrationColumns(dados))
          ==> r.1 == Err(DataTooLong))
    ensures r.1.Ok? ==>
      && Eligibility(dados, lookup).Ok?
      && !Taken(db, "emailProjeto", Get(dados, "emailProjeto")) && !Taken(db, "cnpj", Get(dados, "cnpj"))
      && Fits(RegistrationColumns(dados))
      && r.1.value !in db.projects.rows
      // the new row takes the next id
      && r.1.value == db.projects.next && r.0.projects.next == db.projects.next + 1
      && r.0.projects.rows == db.projects.rows[r.1.value := NewProject(RegistrationColumns(dados))]
      && r.0.images == db.images + (if Get(dados, "Projetos").Arr? then RowsFor(Get(dados, "Projetos").items, r.1.value) else [])
    ensures (Eligibility(dados, lookup).Ok? && !Taken(db, "emailProjeto", Get(dados, "emailProjeto"))
             && !Taken(db, "cnpj", Get(dados, "cnpj")) && Fits(RegistrationColumns(dados))
             && !Get(dados, "Projetos").Str?) ==> r.1.Ok?
  {
    match Eligibility(dados, lookup)
    case Err(m) => (db, Err(m))
    case Ok(_) =>
      if Taken(db, "emailProjeto", Get(dados, "emailProjeto")) then (db, Err(EmailInUse))
      else if Taken(db, "cnpj", Get(dados, "cnpj")) then (db, Err(CnpjInUse))
      else if !Fits(RegistrationColumns(dados)) then (db, Err(DataTooLong))
      else
        var (projects, id) := Insert(db.projects, NewProject(RegistrationColumns(dados)));
        match Get(dados, "Projetos")
        case Arr(urls) => (Db(projects, db.images + RowsFor(urls, id)), Ok(id))
        case Str(s) => if s != "" then (db, Err(ProjetosNotAFunction)) else (Db(projects, db.images), Ok(id))
        case _ => (Db(projects, db.images), Ok(id))
  }

  /** A record failing every check is reported as not a MEI: the checks stop at the first failure. */
  lemma FirstFailureReported(dados: Object, rec: CnpjRecord)
    requires Truthy(Get(dados, "cnpj")) && !IsMei(rec) && !IsRegistered(rec) && !InHomeCity(rec)
    ensures Register(ProjectService.Db(Empty(), []), dados, Ok(rec)).1 == Err(NotMei(rec.porte))
  {
  }

  /** The lowest-id project holding this CNPJ (`findOne({ where: { cnpj } })`). */
  function FindByCnpj(db: Db, cnpj: string): (r: Option<nat>)
    ensures r.None? <==> !Taken(db, "cnpj", Str(cnpj))
    ensures r.Some? ==> r.value in db.projects.rows && Get(db.projects.rows[r.value].cols, "cnpj") == Str(cnpj)
    ensures r.Some? ==> forall k :: k in db.projects.rows && k < r.value ==> Get(db.projects.rows[k].cols, "cnpj") != Str(cnpj)
  {
    FindOne(db.projects, (p: Project) => Get(p.cols, "cnpj") == Str(cnpj))
  }

  /** `solicitarAtualizacaoPorCnpj`: the payload becomes the envelope and the status PENDENTE_ATUALIZACAO. */
  function RequestUpdateByCnpj(db: Db, cnpj: string, payload: Object): (r: (Db, Result<nat>))
    ensures !Taken(db, "cnpj", Str(cnpj)) <==> r.1 == Err(NotFound)
    ensures r.1.Err? ==> r.0 == db
    ensures r.1.Ok? ==>
      var id := r.1.value;
      && id in db.projects.rows && Get(db.projects.rows[id].cols, "cnpj") == Str(cnpj)
      && r.0.images == db.images
      && r.0.projects.rows == db.projects.rows[id := Project(db.projects.rows[id].cols, PendingUpdate, Some(payload))]
  {
    match FindByCnpj(db, cnpj)
    case None => (db, Err(NotFound))
    case Some(id) =>
      var p := db.projects.rows[id];
      (db.(projects := Put(db.projects, id, p.(status := PendingUpdate, envelope := Some(payload)))), Ok(id))
  }

  /** `solicitarExclusaoPorCnpj`: PENDENTE_EXCLUSAO, with the reason as the envelope `{ motivo }`. */
  function RequestDeletionByCnpj(db: Db, cnpj: string, motivo: string): (r: (Db, Result<()>))
    ensures !Taken(db, "cnpj", Str(cnpj)) <==> r.1 == Err(NotFound)
    ensures r.1.Err? ==> r.0 == db
    ensures r.1.Ok? ==>
      exists id :: id in db.projects.rows && Get(db.projects.rows[id].cols, "cnpj") == Str(cnpj)
        && r.0.images == db.images
        && r.0.projects.rows == db.projects.rows[id := Project(db.projects.rows[id].cols, PendingDeletion, Some(map["motivo" := Str(motivo)]))]
  {
    match FindByCnpj(db, cnpj)
    case None => (db, Err(NotFound))
    case Some(id) =>
      var p := db.projects.rows[id];
      (db.(projects := Put(db.projects, id, p.(status := PendingDeletion, envelope := Some(map["motivo" := Str(motivo)])))), Ok(()))
  }

  /** An update request by CNPJ is the update request by id of the project that CNPJ finds. */
  lemma ByCnpjIsById(db: Db, cnpj: string, payload: Object)
    requires FindByCnpj(db, cnpj).Some?
    ensures RequestUpdateByCnpj(db, cnpj, payload).0 == RequestUpdate(db, FindByCnpj(db, cnpj).value, payload).0
  {
  }

  /** A registered CNPJ is found again, and finds the row just created. */
  lemma RegisterThenFind(db: Db, dados: Object, lookup: Result<CnpjRecord>, cnpj: string)
    requires Get(dados, "cnpj") == Str(cnpj) && Register(db, dados, lookup).1.Ok?
    ensures FindByCnpj(Register(db, dados, lookup).0, cnpj) == Some(Register(db, dados, lookup).1.value)
  {
    var (db', r) := Register(db, dados, lookup);
    var id := r.value;
    assert Get(db'.projects.rows[id].cols, "cnpj") == Str(cnpj);
    assert forall k :: k in db'.projects.rows && k != id ==> k in db.projects.rows && db'.projects.rows[k] == db.projects.rows[k];
    assert forall k :: k in db'.projects.rows && k != id ==> Get(db'.projects.rows[k].cols, "cnpj") != Str(cnpj);
  }

  /** Once a CNPJ is registered, registering it again fails and changes nothing. */
  lemma RegisterTwiceRefused(db: Db, dados: Object, lookup: Result<CnpjRecord>, again: Object, lookup2: Result<CnpjRecord>)
    requires Register(db, dados, lookup).1.Ok? && Get(again, "cnpj") == Get(dados, "cnpj")
    ensures var db' := Register(db, dados, lookup).0;
      Register(db', again, lookup2).1.Err? && Register(db', again, lookup2).0 == db'
  {
    var (db', r) := Register(db, dados, lookup);
    assert Get(db'.projects.rows[r.value].cols, "cnpj") == Get(dados, "cnpj");
    assert Taken(db', "cnpj", Get(again, "cnpj"));
  }

  /** The registered project's images are the `Projetos` URLs, in order, when no row named its id before. */
  lemma RegisterImages(db: Db, dados: Object, lookup: Result<CnpjRecord>)
    requires Register(db, dados, lookup).1.Ok? && ImagesBelowNext(db)
    ensures var (db', r) := Register(db, dados, lookup);
      ImagesOf(db'.images, r.value) == (if Get(dados, "Projetos").Arr? then Get(dados, "Projetos").items else [])
  {
    var (db', r) := Register(db, dados, lookup);
    var id := r.value;
    var urls := if Get(dados, "Projetos").Arr? then Get(dados, "Projetos").items else [];
    assert db'.images == db.images + RowsFor(urls, id);
    ImagesOfAppend(db.images, RowsFor(urls, id), id);
    ImagesOfRowsFor(urls, id, id);
    ImagesOfNone(db.images, id);
  }
}
