/** The project record: its moderation status, its columns and their bounds, its image rows. */
module ProjectEntity {
  import opened Wrappers
  import opened Json

  /** The five moderation statuses; `Rejected` is declared but no operation ever sets it. */
  datatype Status = PendingApproval | Active | PendingUpdate | PendingDeletion | Rejected {
    /** The value stored in the `status` column. */
    function Name(): string {
      match this
      case PendingApproval => "pendente_aprovacao"
      case Active => "ativo"
      case PendingUpdate => "pendente_atualizacao"
      case PendingDeletion => "pendente_exclusao"
      case Rejected => "rejeitado"
    }
  }

  const AllStatuses: set<Status> := {PendingApproval, Active, PendingUpdate, PendingDeletion, Rejected}

  /** Reads a stored `status` value back; the column is an ENUM of exactly the five names. */
  function ParseStatus(s: string): Option<Status> {
    if s == "pendente_aprovacao" then Some(PendingApproval)
    else if s == "ativo" then Some(Active)
    else if s == "pendente_atualizacao" then Some(PendingUpdate)
    else if s == "pendente_exclusao" then Some(PendingDeletion)
    else if s == "rejeitado" then Some(Rejected)
    else None
  }

  /** The enum has exactly five values, and each stored name reads back as its own status. */
  lemma StatusEnum()
    ensures |AllStatuses| == 5
    ensures forall st: Status :: st in AllStatuses && ParseStatus(st.Name()) == Some(st)
  {
    assert |{PendingApproval, Active}| == 2;
    assert |{PendingApproval, Active, PendingUpdate}| == 3;
    assert |{PendingApproval, Active, PendingUpdate, PendingDeletion}| == 4;
    forall st: Status ensures st in AllStatuses && ParseStatus(st.Name()) == Some(st) {
      match st
      case PendingApproval =>
      case Active =>
      case PendingUpdate =>
      case PendingDeletion =>
      case Rejected =>
    }
  }

  /** Only the five stored names are read back, each to the status that stores it. */
  lemma StatusNamesReadBack(s: string)
    requires ParseStatus(s).Some?
    ensures ParseStatus(s).value.Name() == s
  {
  }

  /** The attributes the entity declares besides `projetoId`, `status` and `dados_atualizacao`. */
  const Columns: set<string> := {
    "ods", "prefeitura", "nomeProjeto", "emailContato", "endereco", "descricao",
    "descricaoDiferencial", "odsRelacionadas", "website", "instagram", "logoUrl", "ativo"
  }

  /** The VARCHAR length of a column; STRING without a length is 255; TEXT and BOOLEAN have none. */
  function MaxLength(col: string): Option<nat> {
    if col == "ods" then Some(100)
    else if col == "prefeitura" then Some(18)
    else if col == "descricao" then Some(500)
    else if col == "descricaoDiferencial" then Some(130)
    else if col == "instagram" then Some(150)
    else if col in {"nomeProjeto", "emailContato", "endereco", "odsRelacionadas", "website"} then Some(255)
    else None
  }

  /** Every string held in a bounded column is within its length. */
  predicate Fits(cols: Object) {
    forall k :: k in cols && MaxLength(k).Some? && cols[k].Str? ==> |cols[k].s| <= MaxLength(k).value
  }

  /**
   A project row: its columns, its status and the pending-change envelope (`dados_atualizacao`,
   a nullable JSON object). The id is the row's key in its table.
   */
  datatype Project = Project(cols: Object, status: Status, envelope: Option<Object>)

  /** A created row: the given columns plus the declared defaults, `ativo` false and PENDENTE_APROVACAO. */
  function NewProject(given: Object): (p: Project)
    requires "ativo" !in given
    ensures p.status == PendingApproval && p.envelope.None?
    ensures p.cols.Keys == given.Keys + {"ativo"} && p.cols["ativo"] == Bool(false)
    ensures forall k :: k in given ==> p.cols[k] == given[k]
  {
    Project(given["ativo" := Bool(false)], PendingApproval, None)
  }

  /** The `ativo` visibility flag. */
  predicate Visible(p: Project) {
    Get(p.cols, "ativo") == Bool(true)
  }

  /** A portfolio image row: its URL and its project's id. */
  datatype ImageRow = ImageRow(url: Value, projetoId: nat)
}
