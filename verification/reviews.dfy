/**
 Threaded reviews of a project: root reviews carry a rating, replies answer a root review and
 carry none. The profanity and emoji filters are not part of this model; they are parameters.
 */
module Reviews {
  import opened Wrappers
  import opened Text
  import opened Tables

  /** A stored review; `nota` (DOUBLE), `comentario`, `usuarioId` and `parentId` are nullable. */
  datatype Review = Review(nota: Option<real>, comentario: Option<string>, usuarioId: Option<nat>, projetoId: nat, parentId: Option<nat>) {
    predicate IsRoot() { parentId.None? }
  }

  /** The `nota` a request carries: absent (`undefined`), `null`, or a number. */
  datatype Rating = Omitted | Nil | Given(value: real)

  /** The fields of a review submission; ids are whatever `projetoId` / `parent_id` parse to. */
  datatype Submission = Submission(nota: Rating, comentario: Option<string>, projetoId: Option<int>, parentId: Option<int>)

  /** The fields of an edit; `None` for a `comentario` that is `null` or absent. */
  datatype Edit = Edit(nota: Rating, comentario: Option<string>)

  /** The text filters: profanity and emoji detection. */
  datatype Filters = Filters(profane: Option<string> -> bool, emoji: Option<string> -> bool)

  const ProjectRequired := "O ID do projeto é obrigatório."
  const Profanity := "Você utilizou palavras inapropriadas."
  const Emoji := "O comentário não pode conter emojis."
  const ProjectNotFoundPrefix := "Projeto não encontrado com o ID: "
  const ParentNotFound := "Comentário pai não encontrado."
  const ReplyToReply := "Não é possível responder a uma resposta."
  const RatingRange := "A nota da avaliação deve estar entre 1 e 5."
  const AlreadyReviewed := "Este utilizador já avaliou este Projeto."
  const ReviewNotFoundPrefix := "Avaliação não encontrada com o ID: "
  const EditForbidden := "Você não tem permissão para editar esta avaliação."
  const DeleteForbidden := "Você não tem permissão para excluir esta avaliação."

  /** A truthy id (not absent, not 0) and the table key it finds, if any. */
  predicate Truthy(id: Option<int>) {
    id.Some? && id.value != 0
  }

  /** The checks every submission passes first: a truthy project id, then the text filters. */
  predicate Screened(s: Submission, f: Filters) {
    Truthy(s.projetoId) && !f.profane(s.comentario) && !f.emoji(s.comentario)
  }

  /** `findByPk(id)` finds a row: the id is a key of `keys`. */
  predicate Known(id: Option<int>, keys: set<nat>) {
    id.Some? && id.value >= 0 && id.value as nat in keys
  }

  /** `nota < 1 || nota > 5` in JavaScript: `undefined` compares false, `null` compares as 0. */
  predicate OutOfRange(n: Rating) {
    match n
    case Omitted => false
    case Nil => true
    case Given(v) => v < 1.0 || v > 5.0
  }

  /** The value stored from a rating: `undefined` and `null` become NULL. */
  function Stored(n: Rating): (r: Option<real>)
    ensures r.Some? <==> n.Given?
    ensures n.Given? ==> r.value == n.value
  {
    if n.Given? then Some(n.value) else None
  }

  /** `user`'s root review of project `pid`. */
  predicate RootBy(r: Review, user: nat, pid: nat) {
    r.usuarioId == Some(user) && r.projetoId == pid && r.parentId.None?
  }

  /**
   `submeterAvaliacao`. The checks run in order: project id, profanity, emoji, project
   existence; then, for a reply, the parent's existence and that it is a root, and, for a root
   review, the rating range and that the user has no root review of this project yet.
   */
  function Submit(t: Table<Review>, projects: set<nat>, s: Submission, user: nat, f: Filters): (r: (Table<Review>, Result<nat>))
    ensures r.1.Err? ==> r.0 == t
    ensures !Truthy(s.projetoId) <==> r.1 == Err(ProjectRequired)
    ensures Truthy(s.projetoId) && f.profane(s.comentario) ==> r.1 == Err(Profanity)
    ensures Truthy(s.projetoId) && !f.profane(s.comentario) && f.emoji(s.comentario) ==> r.1 == Err(Emoji)
    ensures Screened(s, f) && !Known(s.projetoId, projects) ==> r.1 == Err(ProjectNotFoundPrefix + Show(s.projetoId.value))
    // a reply: its parent must exist and be a root review
    ensures Screened(s, f) && Known(s.projetoId, projects) && Truthy(s.parentId) && !Known(s.parentId, t.rows.Keys) ==>
      r.1 == Err(ParentNotFound)
    ensures (&& Screened(s, f) && Known(s.projetoId, projects) && Truthy(s.parentId) && Known(s.parentId, t.rows.Keys)
             && !t.rows[s.parentId.value as nat].IsRoot()) ==> r.1 == Err(ReplyToReply)
    // a root review: its rating must be in range
    ensures Screened(s, f) && Known(s.projetoId, projects) && !Truthy(s.parentId) && OutOfRange(s.nota) ==>
      r.1 == Err(RatingRange)
    ensures r.1.Ok? ==>
      && s.projetoId.value >= 0 && s.projetoId.value as nat in projects
      && r.1.value == t.next
      && r.0.rows.Keys == t.rows.Keys + {r.1.value}
      && (forall k :: k in t.rows ==> r.0.rows[k] == t.rows[k])
      && var added := r.0.rows[r.1.value];
      && added.usuarioId == Some(user) && added.comentario == s.comentario
      && added.projetoId as int == s.projetoId.value
    // a reply: the parent is an existing root review, and the rating is dropped
    ensures r.1.Ok? && Truthy(s.parentId) ==>
      var added := r.0.rows[r.1.value];
      && s.parentId.value >= 0 && s.parentId.value as nat in t.rows && t.rows[s.parentId.value as nat].IsRoot()
      && added.nota.None? && added.parentId == Some(s.parentId.value as nat)
    // a root review: the rating passed the range check and the user had no root review of the project
    ensures r.1.Ok? && !Truthy(s.parentId) ==>
      var added := r.0.rows[r.1.value];
      && added.IsRoot() && added.nota == Stored(s.nota) && !OutOfRange(s.nota)
      && forall k :: k in t.rows ==> !RootBy(t.rows[k], user, added.projetoId)
    ensures r.1 == Err(AlreadyReviewed) <==>
      && Truthy(s.projetoId) && !f.profane(s.comentario) && !f.emoji(s.comentario)
      && s.projetoId.value >= 0 && s.projetoId.value as nat in projects
      && !Truthy(s.parentId) && !OutOfRange(s.nota)
      && exists k :: k in t.rows && RootBy(t.rows[k], user, s.projetoId.value as nat)
  {
    if !Truthy(s.projetoId) then (t, Err(ProjectRequired))
    else if f.profane(s.comentario) then (t, Err(Profanity))
    else if f.emoji(s.comentario) then (t, Err(Emoji))
    else if !(s.projetoId.value >= 0 && s.projetoId.value as nat in projects) then
      assert (ProjectNotFoundPrefix + Show(s.projetoId.value))[0] == 'P';
      (t, Err(ProjectNotFoundPrefix + Show(s.projetoId.value)))
    else
      var pid := s.projetoId.value as nat;
      if Truthy(s.parentId) then
        if !(s.parentId.value >= 0 && s.parentId.value as nat in t.rows) then (t, Err(ParentNotFound))
        else if !t.rows[s.parentId.value as nat].IsRoot() then (t, Err(ReplyToReply))
        else
          var (t', id) := Insert(t, Review(None, s.comentario, Some(user), pid, Some(s.parentId.value as nat)));
          (t', Ok(id))
      else if OutOfRange(s.nota) then (t, Err(RatingRange))
      else if FindOne(t, (r: Review) => RootBy(r, user, pid)).Some? then (t, Err(AlreadyReviewed))
      else
        var (t', id) := Insert(t, Review(Stored(s.nota), s.comentario, Some(user), pid, None));
        (t', Ok(id))
  }

  /** Exactly the submissions every check lets through. */
  predicate Admissible(t: Table<Review>, projects: set<nat>, s: Submission, user: nat, f: Filters) {
    && Truthy(s.projetoId) && !f.profane(s.comentario) && !f.emoji(s.comentario)
    && s.projetoId.value >= 0 && s.projetoId.value as nat in projects
    && (Truthy(s.parentId) ==>
          s.parentId.value >= 0 && s.parentId.value as nat in t.rows && t.rows[s.parentId.value as nat].IsRoot())
    && (!Truthy(s.parentId) ==>
          !OutOfRange(s.nota) && forall k :: k in t.rows ==> !RootBy(t.rows[k], user, s.projetoId.value as nat))
  }

  /** A submission is stored exactly when it is admissible. */
  lemma SubmitAcceptsAdmissible(t: Table<Review>, projects: set<nat>, s: Submission, user: nat, f: Filters)
    ensures Submit(t, projects, s, user, f).1.Ok? <==> Admissible(t, projects, s, user, f)
  {
  }

  /** The second character tells the review messages apart (long literals are split to read it off). */
  lemma NotFoundSecondChar(id: nat)
    ensures (ReviewNotFoundPrefix + Show(id))[1] == 'v'
  {
  }

  lemma EditSecondChar()
    ensures EditForbidden[1] == 'o'
  {
    assert EditForbidden == "Você não tem permissão " + "para editar esta avaliação.";
  }

  lemma DeleteSecondChar()
    ensures DeleteForbidden[1] == 'o'
  {
    assert DeleteForbidden == "Você não tem permissão " + "para excluir esta avaliação.";
  }

  lemma RangeSecondChar()
    ensures RatingRange[1] == ' '
  {
    assert RatingRange == "A nota da avaliação " + "deve estar entre 1 e 5.";
  }

  /** The not-found message of a review is none of the other messages of an edit or a removal. */
  lemma NotFoundIsItsOwnMessage(id: nat)
    ensures ReviewNotFoundPrefix + Show(id) != EditForbidden
    ensures ReviewNotFoundPrefix + Show(id) != DeleteForbidden
    ensures ReviewNotFoundPrefix + Show(id) != Profanity
    ensures ReviewNotFoundPrefix + Show(id) != RatingRange
  {
    NotFoundSecondChar(id);
    EditSecondChar();
    DeleteSecondChar();
    RangeSecondChar();
    assert Profanity[1] == 'o';
  }

  /** `nota && (nota < 1 || nota > 5)`: a truthy rating outside the range; 0, `null` and absence pass. */
  predicate BadEditRating(n: Rating) {
    n.Given? && n.value != 0.0 && OutOfRange(n)
  }

  /**
   `atualizarAvaliacao`: author only; a non-empty comment is screened for profanity and a truthy
   rating for its range; an absent or null field keeps the stored value. Nothing else changes.
   */
  function Update(t: Table<Review>, id: nat, e: Edit, user: nat, f: Filters): (r: (Table<Review>, Result<()>))
    ensures r.1.Err? ==> r.0 == t
    ensures id !in t.rows <==> r.1 == Err(ReviewNotFoundPrefix + Show(id))
    ensures id in t.rows && t.rows[id].usuarioId != Some(user) ==> r.1 == Err(EditForbidden)
    ensures r.1.Ok? ==>
      var old_ := t.rows[id];
      && old_.usuarioId == Some(user)
      && r.0.rows == t.rows[id := old_.(nota := if e.nota.Given? then Some(e.nota.value) else old_.nota,
                                         comentario := if e.comentario.Some? then e.comentario else old_.comentario)]
      && (e.nota.Given? && e.nota.value != 0.0 ==> 1.0 <= e.nota.value <= 5.0)
      && (Filled(e.comentario) ==> !f.profane(e.comentario))
    // for the author: profanity is checked first, then the range of a truthy rating; otherwise the edit goes through
    ensures id in t.rows && t.rows[id].usuarioId == Some(user) ==>
      && (Filled(e.comentario) && f.profane(e.comentario) ==> r.1 == Err(Profanity))
      && (!(Filled(e.comentario) && f.profane(e.comentario)) && BadEditRating(e.nota) ==> r.1 == Err(RatingRange))
      && (!(Filled(e.comentario) && f.profane(e.comentario)) && !BadEditRating(e.nota) ==> r.1.Ok?)
  {
    if id !in t.rows then (t, Err(ReviewNotFoundPrefix + Show(id)))
    else
      var rv := t.rows[id];
      NotFoundIsItsOwnMessage(id);
      if rv.usuarioId != Some(user) then (t, Err(EditForbidden))
      else if Filled(e.comentario) && f.profane(e.comentario) then (t, Err(Profanity))
      else if BadEditRating(e.nota) then (t, Err(RatingRange))
      else
        var nota := if e.nota.Given? then Some(e.nota.value) else rv.nota;
        var comentario := if e.comentario.Some? then e.comentario else rv.comentario;
        (Put(t, id, rv.(nota := nota, comentario := comentario)), Ok(()))
  }

  /** `excluirAvaliacao`: author only; removes exactly that row. */
  function Remove(t: Table<Review>, id: nat, user: nat): (r: (Table<Review>, Result<()>))
    ensures r.1.Err? ==> r.0 == t
    ensures id !in t.rows <==> r.1 == Err(ReviewNotFoundPrefix + Show(id))
    ensures id in t.rows ==> (r.1.Ok? <==> t.rows[id].usuarioId == Some(user))
    ensures r.1.Ok? ==> r.0.rows == t.rows - {id}
  {
    if id !in t.rows then (t, Err(ReviewNotFoundPrefix + Show(id)))
    else if t.rows[id].usuarioId != Some(user) then
      NotFoundIsItsOwnMessage(id);
      (t, Err(DeleteForbidden))
    else (Delete(t, id), Ok(()))
  }

  /** Detaches every review of a deleted user (`usuarioId` set to NULL); no review is removed. */
  function Detach(t: Table<Review>, user: nat): (r: Table<Review>)
    ensures r.rows.Keys == t.rows.Keys && r.next == t.next
    ensures forall k :: k in t.rows ==>
      r.rows[k].usuarioId == (if t.rows[k].usuarioId == Some(user) then None else t.rows[k].usuarioId)
      && r.rows[k] == t.rows[k].(usuarioId := r.rows[k].usuarioId)
  {
    TableRaw(map k | k in t.rows :: if t.rows[k].usuarioId == Some(user) then t.rows[k].(usuarioId := None) else t.rows[k], t.next)
  }

  /** A root review and its replies. */
  datatype Thread = Thread(root: nat, replies: seq<nat>)

  /** The replies to `root`, oldest first (the `respostas` relation). */
  function RepliesOf(t: Table<Review>, root: nat): (r: seq<nat>)
    ensures forall k :: k in r <==> k in t.rows && t.rows[k].parentId == Some(root)
    ensures forall i, j :: 0 <= i < j < |r| ==> r[i] < r[j]
  {
    FindAllOldestFirst(t, (rv: Review) => rv.parentId == Some(root))
  }

  /**
   `listarPorProjetoDTO`: the project's root reviews, newest first, each with its replies
   oldest first. Replies are found by parent alone, whatever project they name.
   */
  function ListForProject(t: Table<Review>, pid: nat): (r: seq<Thread>)
    ensures forall k :: k in RootsOf(r) <==> k in t.rows && t.rows[k].projetoId == pid && t.rows[k].IsRoot()
    ensures forall i, j :: 0 <= i < j < |r| ==> r[i].root > r[j].root
    ensures forall i :: 0 <= i < |r| ==> r[i].replies == RepliesOf(t, r[i].root)
  {
    var roots := FindAllNewestFirst(t, (rv: Review) => RootOfProject(pid, rv));
    var r := seq(|roots|, i requires 0 <= i < |roots| => Thread(roots[i], RepliesOf(t, roots[i])));
    assert RootsOf(r) == roots;
    r
  }

  predicate RootOfProject(pid: nat, rv: Review) {
    rv.projetoId == pid && rv.IsRoot()
  }

  /** The root ids of a list of threads, in order. */
  function RootsOf(r: seq<Thread>): (ids: seq<nat>)
    ensures |ids| == |r| && forall i :: 0 <= i < |r| ==> ids[i] == r[i].root
  {
    seq(|r|, i requires 0 <= i < |r| => r[i].root)
  }

  /**
   The threading invariant: a reply's parent is a root review (when it still exists) with an
   id already handed out, and no user has two root reviews of one project.
   */
  predicate Threaded(t: Table<Review>) {
    && (forall k :: k in t.rows && t.rows[k].parentId.Some? ==> t.rows[k].parentId.value < t.next)
    && (forall k :: k in t.rows && t.rows[k].parentId.Some? && t.rows[k].parentId.value in t.rows ==>
          t.rows[t.rows[k].parentId.value].IsRoot())
    && (forall a, b ::
          (&& a in t.rows && b in t.rows && t.rows[a].IsRoot() && t.rows[b].IsRoot()
           && t.rows[a].usuarioId.Some? && t.rows[a].usuarioId == t.rows[b].usuarioId
           && t.rows[a].projetoId == t.rows[b].projetoId) ==> a == b)
  }

  lemma SubmitKeepsThreaded(t: Table<Review>, projects: set<nat>, s: Submission, user: nat, f: Filters)
    requires Threaded(t)
    ensures Threaded(Submit(t, projects, s, user, f).0)
  {
    var (t', r) := Submit(t, projects, s, user, f);
    if r.Ok? {
      var id := r.value;
      forall k | k in t.rows && t.rows[k].parentId.Some?
        ensures t.rows[k].parentId.value != id
      {
      }
    }
  }

  lemma UpdateKeepsThreaded(t: Table<Review>, id: nat, e: Edit, user: nat, f: Filters)
    requires Threaded(t)
    ensures Threaded(Update(t, id, e, user, f).0)
  {
  }

  lemma RemoveKeepsThreaded(t: Table<Review>, id: nat, user: nat)
    requires Threaded(t)
    ensures Threaded(Remove(t, id, user).0)
  {
  }

  lemma DetachKeepsThreaded(t: Table<Review>, user: nat)
    requires Threaded(t)
    ensures Threaded(Detach(t, user))
  {
  }

  /** Sound ratings: every root review rated 1 to 5, no reply rated. */
  predicate RatingsSound(t: Table<Review>) {
    forall k :: k in t.rows ==>
      if t.rows[k].IsRoot() then t.rows[k].nota.Some? && 1.0 <= t.rows[k].nota.value <= 5.0
      else t.rows[k].nota.None?
  }

  /** A root review submitted without any `nota` passes the range check and is stored unrated. */
  lemma SubmitStoresUnratedRoot()
    ensures var noFilter := Filters(_ => false, _ => false);
      var (t', r) := Submit(Empty(), {7}, Submission(Omitted, Some("bom"), Some(7), None), 1, noFilter);
      && r == Ok(1) && t'.rows[1].IsRoot() && t'.rows[1].nota.None?
      && RatingsSound(Empty()) && !RatingsSound(t')
  {
    var noFilter := Filters(_ => false, _ => false);
    var t: Table<Review> := Empty();
    assert FindOne(t, (r: Review) => RootBy(r, 1, 7)).None?;
  }

  /** An edit whose `nota` is 0 passes the truthiness guard and stores the rating 0. */
  lemma UpdateStoresZeroRating()
    ensures var t: Table<Review> := TableRaw(map[1 := Review(Some(3.0), None, Some(1), 7, None)], 2);
      var (t', r) := Update(t, 1, Edit(Given(0.0), None), 1, Filters(_ => false, _ => false));
      && r.Ok? && t'.rows[1].nota == Some(0.0) && RatingsSound(t) && !RatingsSound(t')
  {
  }

  /** An edit with a valid rating gives a reply a rating, which a reply never carries. */
  lemma UpdateRatesReply()
    ensures var t: Table<Review> := TableRaw(map[1 := Review(Some(3.0), None, Some(1), 7, None),
                                                 2 := Review(None, None, Some(1), 7, Some(1))], 3);
      var (t', r) := Update(t, 2, Edit(Given(4.0), None), 1, Filters(_ => false, _ => false));
      && r.Ok? && t'.rows[2].nota == Some(4.0) && RatingsSound(t) && !RatingsSound(t')
  {
  }

  /** `submeterAvaliacao` with the rating required on root reviews. */
  function SubmitRated(t: Table<Review>, projects: set<nat>, s: Submission, user: nat, f: Filters): (r: (Table<Review>, Result<nat>))
    ensures r.1.Err? ==> r.0 == t
    ensures !Truthy(s.parentId) && !s.nota.Given? && Admissible(t, projects, s, user, f) ==> r.1 == Err(RatingRange)
    ensures !(!Truthy(s.parentId) && !s.nota.Given?) ==> r == Submit(t, projects, s, user, f)
  {
    if Admissible(t, projects, s, user, f) && !Truthy(s.parentId) && !s.nota.Given? then (t, Err(RatingRange))
    else Submit(t, projects, s, user, f)
  }

  /** `atualizarAvaliacao` with every present rating range-checked and ratings refused on replies. */
  function UpdateRated(t: Table<Review>, id: nat, e: Edit, user: nat, f: Filters): (r: (Table<Review>, Result<()>))
    ensures r.1.Err? ==> r.0 == t
    ensures r.1.Ok? ==> r == Update(t, id, e, user, f)
    ensures r.1.Ok? && e.nota.Given? ==> t.rows[id].IsRoot() && 1.0 <= e.nota.value <= 5.0
  {
    if id in t.rows && e.nota.Given? && (!t.rows[id].IsRoot() || OutOfRange(e.nota)) then (t, Err(RatingRange))
    else Update(t, id, e, user, f)
  }

  /** With the corrected operations, every root review stays rated 1 to 5 and no reply is rated. */
  lemma SubmitRatedKeepsRatingsSound(t: Table<Review>, projects: set<nat>, s: Submission, user: nat, f: Filters)
    requires RatingsSound(t)
    ensures RatingsSound(SubmitRated(t, projects, s, user, f).0)
  {
  }

  lemma UpdateRatedKeepsRatingsSound(t: Table<Review>, id: nat, e: Edit, user: nat, f: Filters)
    requires RatingsSound(t)
    ensures RatingsSound(UpdateRated(t, id, e, user, f).0)
  {
  }

  lemma RemoveKeepsRatingsSound(t: Table<Review>, id: nat, user: nat)
    requires RatingsSound(t)
    ensures RatingsSound(Remove(t, id, user).0)
  {
  }

  lemma DetachKeepsRatingsSound(t: Table<Review>, user: nat)
    requires RatingsSound(t)
    ensures RatingsSound(Detach(t, user))
  {
  }
}
