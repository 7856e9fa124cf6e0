/**
 The two card catalogues, newsletter boxes and courses, which keep one image per card under
 `uploads/{folder}/{slug of the title}` and rewrite that path when the title changes.
 */
module Cards {
  import opened Wrappers
  import opened Text
  import opened Tables
  import opened FileSystem
  import opened Slug

  /** Which catalogue: the newsletter boxes or the courses. */
  datatype Catalogue = Newsletter | Courses {
    function Folder(): string {
      match this
      case Newsletter => "newsletter"
      case Courses => "cursos"
    }
    function NotFound(): string {
      match this
      case Newsletter => "Box não encontrada."
      case Courses => "Curso não encontrado."
    }
    function Duplicate(): string {
      match this
      case Newsletter => "Já existe uma box com este título."
      case Courses => "Já existe um curso com este título."
    }
    function CreateFailed(): string {
      match this
      case Newsletter => "Erro ao criar box."
      case Courses => "Erro ao criar curso."
    }
    function UpdateFailed(): string {
      match this
      case Newsletter => "Erro ao atualizar box."
      case Courses => "Erro ao atualizar curso."
    }
  }

  const ImageRequired := "Imagem é obrigatória."
  const FieldsRequired := "Título e Link são obrigatórios."

  /** The catalogue's folder, `uploads/{folder}`. */
  function Top(c: Catalogue): string {
    "uploads/" + c.Folder()
  }

  /** The folder path has no "//" and does not end in '/'. */
  lemma TopShape(c: Catalogue)
    ensures NoRun(Top(c), '/') && Top(c)[|Top(c)| - 1] != '/'
  {
    JoinSegment("uploads", c.Folder());
    assert Top(c) == "uploads" + "/" + c.Folder();
  }

  /**
   The directory of a card, `path.resolve` of `uploads/{folder}/{slug}`: for an empty slug the
   empty segment vanishes and the directory is the catalogue's folder itself.
   */
  function Dir(c: Catalogue, slug: string): (r: string)
    ensures slug == "" ==> r == Top(c)
    ensures slug != "" ==> r == Top(c) + "/" + slug
  {
    if slug == "" then Top(c) else Top(c) + "/" + slug
  }

  /** A file in a card's directory (`path.join` of the directory and a one-segment name). */
  function PathOf(c: Catalogue, slug: string, name: string): string {
    Dir(c, slug) + "/" + name
  }

  /** The stored image URL, a template string: `/uploads/{folder}/{slug}/{name}`. */
  function Url(c: Catalogue, slug: string, name: string): string {
    "/" + Top(c) + "/" + slug + "/" + name
  }

  /** The part of a URL the title rewrite replaces: `/{folder}/{slug}/`. */
  function Segment(c: Catalogue, slug: string): string {
    "/" + c.Folder() + "/" + slug + "/"
  }

  /** The file a stored URL names: one leading '/' removed, then resolved against the working directory. */
  function LocalPath(url: string): (p: string)
    ensures NoRun(p, '/')
  {
    Resolve(if |url| > 0 && url[0] == '/' then url[1..] else url)
  }

  /** Slugs are single path segments. */
  lemma SlugIsSegment(s: string)
    ensures OneSegment(ToSlug(s))
  {
    ToSlugIsSlug(s);
  }

  /** A file lies in its card's directory. */
  lemma FileInDir(c: Catalogue, slug: string, name: string)
    ensures Under(PathOf(c, slug, name), Dir(c, slug))
  {
    BelowDir(Dir(c, slug), name);
  }

  /**
   A stored URL names the file in its card's directory; for an empty slug the "//" of the URL
   resolves to the catalogue folder.
   */
  lemma UrlNamesFile(c: Catalogue, slug: string, name: string)
    requires OneSegment(slug) && OneSegment(name) && name != ""
    ensures LocalPath(Url(c, slug, name)) == PathOf(c, slug, name)
  {
    var rest := Top(c) + "/" + slug + "/" + name;
    assert Url(c, slug, name) == "/" + rest;
    assert ("/" + rest)[1..] == rest;
    TopShape(c);
    ResolveNested(Top(c), slug, name);
    PathUnderFolder(c, slug, name);
  }

  /** The URL's layout: "/uploads" then the segment then the file name. */
  lemma UrlLayout(c: Catalogue, slug: string, name: string)
    ensures Url(c, slug, name) == "/uploads" + Segment(c, slug) + name
  {
  }

  /**
   The first occurrence of the before segment in a stored URL is the directory part, so the
   rewrite yields the URL of the same file under the after slug.
   */
  lemma RewriteUrl(c: Catalogue, before: string, after: string, name: string)
    ensures ReplaceFirst(Url(c, before, name), Segment(c, before), Segment(c, after)) == Url(c, after, name)
  {
    var s := Url(c, before, name);
    var pat := Segment(c, before);
    var rep := Segment(c, after);
    UrlLayout(c, before, name);
    UrlLayout(c, after, name);
    assert s[..8] == "/uploads";
    assert MatchesAt(s, pat, 8) by {
      assert s[8..8 + |pat|] == pat;
    }
    assert c.Folder()[0] != 'u';
    assert pat[0] == '/' && pat[1] == c.Folder()[0];
    assert forall j :: 1 <= j < 8 ==> s[j] == s[..8][j] != '/';
    forall j: nat | j < 8 ensures !MatchesAt(s, pat, j) {
      if j + |pat| <= |s| {
        assert s[j..j + |pat|][0] == s[j];
        assert s[j..j + |pat|][1] == s[j + 1];
      }
    }
    assert IndexOf(s, pat) == Some(8);
    var r := ReplaceFirst(s, pat, rep);
    assert r == r[..8] + r[8..8 + |rep|] + r[8 + |rep|..];
    assert s[8 + |pat|..] == name;
  }

  /** Renaming a card's directory carries each of its files to the same name under the after slug. */
  lemma RenameCarriesFile(fs: Fs, c: Catalogue, before: string, after: string, name: string)
    requires PathOf(c, before, name) in fs
    ensures PathOf(c, after, name) in RenameTree(fs, Dir(c, before), Dir(c, after))
  {
    RebaseChild(Dir(c, before), Dir(c, after), name);
  }

  /**
   One card directory lies inside another only when the outer one is the empty slug's, which is
   the whole catalogue folder.
   */
  lemma NestedOnlyUnderEmpty(c: Catalogue, before: string, after: string)
    requires OneSegment(before) && OneSegment(after) && before != after
    ensures Under(Dir(c, after), Dir(c, before)) <==> before == ""
  {
    if before == "" {
      BelowDir(Top(c), after);
    } else if after != "" {
      UnderDropPrefix(Top(c) + "/", after, before);
      SegmentUnder(after, before);
    }
  }

  /**
   A card. `ativo` and `visualizacoes` belong to courses, whose controller reads and writes them;
   a newsletter box keeps their defaults.
   */
  datatype Card = Card(titulo: string, linkDestino: string, imagemUrl: string, ativo: bool, visualizacoes: nat)

  /** A file multer has stored in its temporary area, and the name the client gave it. */
  datatype CardUpload = CardUpload(tempPath: string, originalname: string)

  /** The uploads area and one catalogue's table. */
  datatype Shelf = Shelf(fs: Fs, cards: Table<Card>)

  /** The length of a Sequelize `STRING` column declared without one: VARCHAR(255). */
  const MaxString := 255

  /** The card's title, link and image URL fit their VARCHAR(255) columns; MySQL refuses a longer value. */
  predicate CardFits(card: Card) {
    |card.titulo| <= MaxString && |card.linkDestino| <= MaxString && |card.imagemUrl| <= MaxString
  }

  /** Every stored card fits its columns. */
  predicate AllFit(t: Table<Card>) {
    forall k :: k in t.rows ==> CardFits(t.rows[k])
  }

  /** The stored name of an upload: `{Date.now()}-{originalname}`. */
  function FileName(now: nat, original: string): string {
    Show(now) + "-" + original
  }

  /** The error handler's clean-up removes only the upload, so a frame that lets it go still holds. */
  lemma DiscardFramed(before: Fs, gone: set<string>, added: set<string>, fs: Fs, file: Option<CardUpload>)
    requires Framed(before, gone, added, fs)
    requires file.Some? ==> file.value.tempPath in gone
    ensures Framed(before, gone, added, Discard(fs, file))
  {
  }

  /** `mkdirSync(dir, { recursive: true })` for a card directory. */
  function MakeDir(fs: Fs, c: Catalogue, slug: string): (r: Fs)
    ensures r == fs + {"uploads", Top(c), Dir(c, slug)}
  {
    fs + {"uploads", Top(c), Dir(c, slug)}
  }

  /** Another card already holds this title (the column is UNIQUE). */
  predicate TitleTaken(t: Table<Card>, titulo: string, except: nat) {
    exists k :: k in t.rows && k != except && t.rows[k].titulo == titulo
  }

  /** The error handler's clean-up: the upload's temporary path is unlinked if it still exists. */
  function Discard(fs: Fs, file: Option<CardUpload>): (r: Fs)
    ensures file.None? ==> r == fs
    ensures file.Some? ==> file.value.tempPath !in r && forall p :: p in fs && p != file.value.tempPath ==> p in r
    ensures r <= fs
  {
    if file.Some? then fs - {file.value.tempPath} else fs
  }

  /** The `ativo` a course is created with: `req.body.ativo ? req.body.ativo === 'true' : true`. */
  function CreationAtivo(ativo: Option<string>): bool {
    if Filled(ativo) then ativo.value == "true" else true
  }

  /**
   `create`: an image, a title and a link are required; the image is moved to the card's
   directory and the card stored with its URL. A value too long for its column (a 500) and a
   duplicate title (a 400) are refused by the insert, after the move, so the moved image stays
   (the error handler removes only the temporary path). For courses the reply always says
   `ativo: true`.
   */
  function Create(st: Shelf, c: Catalogue, file: Option<CardUpload>, titulo: Option<string>, link: Option<string>,
                  ativo: Option<string>, now: nat): (r: (Shelf, Reply, Option<Card>))
    ensures file.None? ==> r == (st, Reply(400, ImageRequired), None)
    ensures file.Some? && (!Filled(titulo) || !Filled(link)) ==> r == (st, Reply(400, FieldsRequired), None)
    ensures file.Some? && Filled(titulo) && Filled(link) ==>
      var slug := ToSlug(titulo.value);
      var name := FileName(now, file.value.originalname);
      var stored := Card(titulo.value, link.value, Url(c, slug, name), c.Newsletter? || CreationAtivo(ativo), 0);
      var taken := TitleTaken(st.cards, titulo.value, st.cards.next);
      && (file.value.tempPath != PathOf(c, slug, name) ==> PathOf(c, slug, name) in r.0.fs && file.value.tempPath !in r.0.fs)
      // no other file is lost, and only the card's directories and file appear
      && Framed(st.fs, {file.value.tempPath}, {"uploads", Top(c), Dir(c, slug), PathOf(c, slug, name)}, r.0.fs)
      && (!CardFits(stored) <==> r.1 == Reply(500, c.CreateFailed()))
      && (CardFits(stored) && taken <==> r.1 == Reply(400, c.Duplicate()))
      && (!CardFits(stored) || taken ==> r.0.cards == st.cards && r.2.None?)
      && (CardFits(stored) && !taken ==>
            && r.1.code == 201
            && PathOf(c, slug, name) in r.0.fs
            && r.0.cards.rows == st.cards.rows[st.cards.next := stored]
            && r.2 == Some(stored.(ativo := true)))
  {
    if file.None? then (st, Reply(400, ImageRequired), None)
    else if !Filled(titulo) || !Filled(link) then (st, Reply(400, FieldsRequired), None)
    else
      var slug := ToSlug(titulo.value);
      var name := FileName(now, file.value.originalname);
      var fs := MoveFile(MakeDir(st.fs, c, slug), file.value.tempPath, PathOf(c, slug, name));
      var stored := Card(titulo.value, link.value, Url(c, slug, name), c.Newsletter? || CreationAtivo(ativo), 0);
      if !CardFits(stored) then
        (Shelf(Discard(fs, file), st.cards), Reply(500, c.CreateFailed()), None)
      else if FindOne(st.cards, (k: Card) => k.titulo == titulo.value).Some? then
        (Shelf(Discard(fs, file), st.cards), Reply(400, c.Duplicate()), None)
      else
        var (cards, _) := Insert(st.cards, stored);
        (Shelf(fs, cards), Reply(201, ""), Some(stored.(ativo := true)))
  }

  /** A course created with `ativo` "false" is stored inactive, while the reply says it is active. */
  lemma CourseReplyOverridesAtivo(st: Shelf, file: CardUpload, titulo: string, link: string, now: nat)
    requires titulo != "" && link != "" && !TitleTaken(st.cards, titulo, st.cards.next)
    requires CardFits(Card(titulo, link, Url(Courses, ToSlug(titulo), FileName(now, file.originalname)), false, 0))
    ensures var r := Create(st, Courses, Some(file), Some(titulo), Some(link), Some("false"), now);
      && !r.0.cards.rows[st.cards.next].ativo && r.2.Some? && r.2.value.ativo
  {
  }

  /**
   `renameSync` of a directory into its own subtree fails (EINVAL): with an empty old slug the old
   directory is the catalogue folder, which holds the new one.
   */
  predicate RenameStuck(fs: Fs, c: Catalogue, before: string, after: string) {
    Dir(c, before) in fs && Dir(c, after) !in fs && Under(Dir(c, after), Dir(c, before))
  }

  /**
   The directory rename of a title change: only when the old directory exists and the new one
   does not; `None` when the rename throws.
   */
  function RenameDir(fs: Fs, c: Catalogue, before: string, after: string): (r: Option<Fs>)
    ensures r.None? <==> RenameStuck(fs, c, before, after)
    ensures !(Dir(c, before) in fs && Dir(c, after) !in fs) ==> r == Some(fs)
    ensures Dir(c, before) in fs && Dir(c, after) !in fs && r.Some? ==> r.value == RenameTree(fs, Dir(c, before), Dir(c, after))
  {
    if Dir(c, before) in fs && Dir(c, after) !in fs then
      if Under(Dir(c, after), Dir(c, before)) then None else Some(RenameTree(fs, Dir(c, before), Dir(c, after)))
    else Some(fs)
  }

  /** The title a card has after an update: a falsy title keeps the stored one. */
  function Retitled(card: Card, titulo: Option<string>): string {
    if Filled(titulo) then titulo.value else card.titulo
  }

  /** An update that changes the title, and so renames the directory and rewrites the URL. */
  predicate Renames(card: Card, titulo: Option<string>) {
    Filled(titulo) && titulo.value != card.titulo
  }

  /** The stored URL after a title change: the first `/{folder}/{old slug}/` rewritten to the new slug. */
  function RewrittenUrl(card: Card, c: Catalogue, titulo: Option<string>): string {
    if Renames(card, titulo) then ReplaceFirst(card.imagemUrl, Segment(c, ToSlug(card.titulo)), Segment(c, ToSlug(Retitled(card, titulo))))
    else card.imagemUrl
  }

  /** The row `update` writes: falsy title and link keep the stored ones, and the URL follows the title or names the new image. */
  function Edited(card: Card, c: Catalogue, titulo: Option<string>, link: Option<string>, file: Option<CardUpload>, now: nat): Card {
    var slug := ToSlug(Retitled(card, titulo));
    card.(titulo := Retitled(card, titulo), linkDestino := if Filled(link) then link.value else card.linkDestino,
          imagemUrl := if file.None? then RewrittenUrl(card, c, titulo) else Url(c, slug, FileName(now, file.value.originalname)))
  }

  /** An update whose directory rename throws. */
  predicate Stuck(st: Shelf, c: Catalogue, id: nat, titulo: Option<string>)
    requires id in st.cards.rows
  {
    var card := st.cards.rows[id];
    Renames(card, titulo) && RenameStuck(st.fs, c, ToSlug(card.titulo), ToSlug(Retitled(card, titulo)))
  }

  /**
   A new image of `update`: the card directory is made, the old image (if any) unlinked, and the
   upload moved into place; nothing else in the uploads area changes.
   */
  function PlaceImage(fs: Fs, c: Catalogue, slug: string, stale: Option<string>, file: CardUpload, placed: string): (r: Fs)
    ensures placed in r && (file.tempPath != placed ==> file.tempPath !in r)
    ensures stale.Some? && stale.value != placed ==> stale.value !in r
    ensures Framed(fs, {file.tempPath} + (if stale.Some? then {stale.value} else {}), {"uploads", Top(c), Dir(c, slug), placed}, r)
  {
    var made := MakeDir(fs, c, slug);
    MoveFile(if stale.Some? then made - {stale.value} else made, file.tempPath, placed)
  }

  /**
   `update` with the file whose removal a new image triggers given as a function of the stored
   URL and the rewritten one (the controller removes the file the stored URL names).
   */
  function UpdateWith(st: Shelf, c: Catalogue, id: nat, titulo: Option<string>, link: Option<string>,
                      file: Option<CardUpload>, now: nat, unlinkRewritten: bool): (r: (Shelf, Reply))
  {
    if id !in st.cards.rows then (st, Reply(404, c.NotFound()))
    else
      var card := st.cards.rows[id];
      var current := ToSlug(card.titulo);
      var slug := ToSlug(Retitled(card, titulo));
      var moved := if Renames(card, titulo) then RenameDir(st.fs, c, current, slug) else Some(st.fs);
      if moved.None? then (Shelf(Discard(st.fs, file), st.cards), Reply(500, c.UpdateFailed()))
      else
        var fs1 := moved.value;
        var url1 := RewrittenUrl(card, c, titulo);
        var fs2 := if file.None? then fs1
          else
            var doomed := if unlinkRewritten then url1 else card.imagemUrl;
            PlaceImage(fs1, c, slug, if card.imagemUrl != "" then Some(LocalPath(doomed)) else None,
                       file.value, PathOf(c, slug, FileName(now, file.value.originalname)));
        var updated := Edited(card, c, titulo, link, file, now);
        if TitleTaken(st.cards, Retitled(card, titulo), id) || !CardFits(updated) then
          (Shelf(Discard(fs2, file), st.cards), Reply(500, c.UpdateFailed()))
        else (Shelf(fs2, Put(st.cards, id, updated)), Reply(200, ""))
  }

  /**
   The uploads area after `update` of a known card: a stuck rename leaves it as it was but for the
   temporary upload; otherwise the rename (if any) has happened, and a new image is in place while
   the file the stored URL named is gone, whether or not the row update then fails.
   */
  predicate UpdatedFiles(st: Shelf, c: Catalogue, id: nat, titulo: Option<string>, file: Option<CardUpload>, now: nat, fs: Fs)
    requires id in st.cards.rows
  {
    var card := st.cards.rows[id];
    var slug := ToSlug(Retitled(card, titulo));
    && (Stuck(st, c, id, titulo) ==> fs == Discard(st.fs, file))
    && (file.None? && !Renames(card, titulo) ==> fs == st.fs)
    && (file.None? && Renames(card, titulo) && !Stuck(st, c, id, titulo) ==> RenameDir(st.fs, c, ToSlug(card.titulo), slug) == Some(fs))
    && (!Stuck(st, c, id, titulo) && file.Some? ==>
          var placed := PathOf(c, slug, FileName(now, file.value.originalname));
          && (card.imagemUrl != "" && LocalPath(card.imagemUrl) != placed ==> LocalPath(card.imagemUrl) !in fs)
          && (file.value.tempPath != placed ==> placed in fs && file.value.tempPath !in fs))
  }

  /**
   The rest of the uploads area is kept by `update` with a new image: after the rename (if any),
   only the upload and the file the stored URL names can go, and only the card's directories and
   the placed file can appear.
   */
  ghost predicate UpdateFramed(st: Shelf, c: Catalogue, id: nat, titulo: Option<string>, file: Option<CardUpload>, now: nat, fs: Fs)
    requires id in st.cards.rows
  {
    var card := st.cards.rows[id];
    var slug := ToSlug(Retitled(card, titulo));
    var renamed := if Renames(card, titulo) then RenameDir(st.fs, c, ToSlug(card.titulo), slug) else Some(st.fs);
    !Stuck(st, c, id, titulo) && file.Some? ==>
      && renamed.Some?
      && Framed(renamed.value, {file.value.tempPath} + (if card.imagemUrl != "" then {LocalPath(card.imagemUrl)} else {}),
                {"uploads", Top(c), Dir(c, slug), PathOf(c, slug, FileName(now, file.value.originalname))}, fs)
  }

  /** With a new image and no stuck rename, `update` leaves the placed image's uploads area, less the upload on a refusal. */
  lemma UpdateImageFs(st: Shelf, c: Catalogue, id: nat, titulo: Option<string>, link: Option<string>,
                      file: Option<CardUpload>, now: nat)
    requires id in st.cards.rows && !Stuck(st, c, id, titulo) && file.Some?
    ensures var card := st.cards.rows[id];
      var slug := ToSlug(Retitled(card, titulo));
      var renamed := if Renames(card, titulo) then RenameDir(st.fs, c, ToSlug(card.titulo), slug) else Some(st.fs);
      && renamed.Some?
      && var fs2 := PlaceImage(renamed.value, c, slug, if card.imagemUrl != "" then Some(LocalPath(card.imagemUrl)) else None,
                               file.value, PathOf(c, slug, FileName(now, file.value.originalname)));
      var out := UpdateWith(st, c, id, titulo, link, file, now, false).0.fs;
      out == fs2 || out == Discard(fs2, file)
  {
  }

  lemma UpdateFrameHolds(st: Shelf, c: Catalogue, id: nat, titulo: Option<string>, link: Option<string>,
                         file: Option<CardUpload>, now: nat)
    requires id in st.cards.rows
    ensures UpdateFramed(st, c, id, titulo, file, now, UpdateWith(st, c, id, titulo, link, file, now, false).0.fs)
  {
    if !Stuck(st, c, id, titulo) && file.Some? {
      UpdateImageFs(st, c, id, titulo, link, file, now);
      var card := st.cards.rows[id];
      var slug := ToSlug(Retitled(card, titulo));
      var renamed := if Renames(card, titulo) then RenameDir(st.fs, c, ToSlug(card.titulo), slug) else Some(st.fs);
      var stale := if card.imagemUrl != "" then Some(LocalPath(card.imagemUrl)) else None;
      var placed := PathOf(c, slug, FileName(now, file.value.originalname));
      var fs2 := PlaceImage(renamed.value, c, slug, stale, file.value, placed);
      var gone := {file.value.tempPath} + (if card.imagemUrl != "" then {LocalPath(card.imagemUrl)} else {});
      var added := {"uploads", Top(c), Dir(c, slug), placed};
      assert Framed(renamed.value, gone, added, fs2) by {
        assert gone == {file.value.tempPath} + (if stale.Some? then {stale.value} else {});
      }
      DiscardFramed(renamed.value, gone, added, fs2, file);
    }
  }



  /**
   The refusals of `update` of a known card: a stuck rename, a title another card holds, or a
   value too long for its column is a 500, and then the table is unchanged.
   */
  predicate Refused(st: Shelf, c: Catalogue, id: nat, titulo: Option<string>, link: Option<string>, file: Option<CardUpload>, now: nat)
    requires id in st.cards.rows
  {
    var card := st.cards.rows[id];
    Stuck(st, c, id, titulo) || TitleTaken(st.cards, Retitled(card, titulo), id) || !CardFits(Edited(card, c, titulo, link, file, now))
  }

  predicate UpdateRefused(st: Shelf, c: Catalogue, id: nat, titulo: Option<string>, link: Option<string>,
                          file: Option<CardUpload>, now: nat, r: (Shelf, Reply))
    requires id in st.cards.rows
  {
    var refused := Refused(st, c, id, titulo, link, file, now);
    && (refused <==> r.1 == Reply(500, c.UpdateFailed()))
    && (refused ==> r.0.cards == st.cards)
  }

  /**
   `update` of a known card that is not refused: a 200 in which only this card's row changed;
   falsy title and link keep the stored ones, the URL follows a title change, and a new image is
   named by the URL and present.
   */
  predicate UpdatedRow(st: Shelf, c: Catalogue, id: nat, titulo: Option<string>, link: Option<string>,
                       file: Option<CardUpload>, now: nat, r: (Shelf, Reply))
    requires id in st.cards.rows
  {
    var card := st.cards.rows[id];
    var newTitle := Retitled(card, titulo);
    !Refused(st, c, id, titulo, link, file, now) ==>
      && r.1.code == 200
      && r.0.cards.rows.Keys == st.cards.rows.Keys
      && (forall k :: k in st.cards.rows && k != id ==> r.0.cards.rows[k] == st.cards.rows[k])
      && var card' := r.0.cards.rows[id];
      && card'.titulo == newTitle
      && card'.linkDestino == (if Filled(link) then link.value else card.linkDestino)
      && card'.ativo == card.ativo && card'.visualizacoes == card.visualizacoes
      && (file.None? && !Renames(card, titulo) ==> card'.imagemUrl == card.imagemUrl)
      && (file.None? && Renames(card, titulo) ==>
            card'.imagemUrl == ReplaceFirst(card.imagemUrl, Segment(c, ToSlug(card.titulo)), Segment(c, ToSlug(newTitle))))
      && (file.Some? ==>
            card'.imagemUrl == Url(c, ToSlug(newTitle), FileName(now, file.value.originalname))
            && PathOf(c, ToSlug(newTitle), FileName(now, file.value.originalname)) in r.0.fs)
  }

  lemma UpdateFilesHold(st: Shelf, c: Catalogue, id: nat, titulo: Option<string>, link: Option<string>,
                        file: Option<CardUpload>, now: nat)
    requires id in st.cards.rows
    ensures UpdatedFiles(st, c, id, titulo, file, now, UpdateWith(st, c, id, titulo, link, file, now, false).0.fs)
  {
  }

  lemma UpdateRefusedHolds(st: Shelf, c: Catalogue, id: nat, titulo: Option<string>, link: Option<string>,
                           file: Option<CardUpload>, now: nat)
    requires id in st.cards.rows
    ensures UpdateRefused(st, c, id, titulo, link, file, now, UpdateWith(st, c, id, titulo, link, file, now, false))
  {
  }

  lemma UpdatedRowHolds(st: Shelf, c: Catalogue, id: nat, titulo: Option<string>, link: Option<string>,
                        file: Option<CardUpload>, now: nat)
    requires id in st.cards.rows
    ensures UpdatedRow(st, c, id, titulo, link, file, now, UpdateWith(st, c, id, titulo, link, file, now, false))
  {
  }

  /**
   `update`: falsy title or link keep the stored ones; a changed title renames the directory
   (when the old exists and the new does not) and rewrites the first `/{folder}/{old}/` in the
   URL; a new image replaces the stored one, whose file (as the stored URL names it) is unlinked.
   A rename into its own subtree, a taken title or a value too long for its column is a 500 that
   leaves the table as it was; in the last two cases the directory rename, the unlink and the
   move have already happened.
   */
  function Update(st: Shelf, c: Catalogue, id: nat, titulo: Option<string>, link: Option<string>,
                  file: Option<CardUpload>, now: nat): (r: (Shelf, Reply))
    ensures id !in st.cards.rows ==> r == (st, Reply(404, c.NotFound()))
    ensures id in st.cards.rows ==> UpdateRefused(st, c, id, titulo, link, file, now, r)
    ensures id in st.cards.rows ==> UpdatedRow(st, c, id, titulo, link, file, now, r)
    ensures id in st.cards.rows ==> UpdatedFiles(st, c, id, titulo, file, now, r.0.fs)
    ensures id in st.cards.rows ==> UpdateFramed(st, c, id, titulo, file, now, r.0.fs)
  {
    if id in st.cards.rows then
      UpdateFilesHold(st, c, id, titulo, link, file, now);
      UpdateFrameHolds(st, c, id, titulo, link, file, now);
      UpdateRefusedHolds(st, c, id, titulo, link, file, now);
      UpdatedRowHolds(st, c, id, titulo, link, file, now);
      UpdateWith(st, c, id, titulo, link, file, now, false)
    else UpdateWith(st, c, id, titulo, link, file, now, false)
  }

  /** The column limits hold of the table: `create` stores only a card that fits. */
  lemma CreateKeepsFit(st: Shelf, c: Catalogue, file: Option<CardUpload>, titulo: Option<string>, link: Option<string>,
                       ativo: Option<string>, now: nat)
    requires AllFit(st.cards)
    ensures AllFit(Create(st, c, file, titulo, link, ativo, now).0.cards)
  {
  }

  /** The column limits hold of the table: `update` writes only an edited card that fits. */
  lemma UpdateKeepsFit(st: Shelf, c: Catalogue, id: nat, titulo: Option<string>, link: Option<string>,
                       file: Option<CardUpload>, now: nat)
    requires AllFit(st.cards)
    ensures AllFit(Update(st, c, id, titulo, link, file, now).0.cards)
  {
  }

  /**
   The situation of a title change: the card's image is in its directory, which has a slug of its
   own and can be renamed.
   */
  predicate RenameScene(st: Shelf, c: Catalogue, id: nat, titulo: string, name: string) {
    && id in st.cards.rows
    && var card := st.cards.rows[id];
    && titulo != "" && titulo != card.titulo && !TitleTaken(st.cards, titulo, id)
    && card.imagemUrl == Url(c, ToSlug(card.titulo), name)
    && OneSegment(name) && name != ""
    && PathOf(c, ToSlug(card.titulo), name) in st.fs
    && ToSlug(card.titulo) != ""
    && Dir(c, ToSlug(card.titulo)) in st.fs && Dir(c, ToSlug(titulo)) !in st.fs
  }

  /** After a title change alone, the rewritten URL names the image, which the rename carried along. */
  lemma RenameKeepsImage(st: Shelf, c: Catalogue, id: nat, titulo: string, link: Option<string>, name: string, now: nat)
    requires RenameScene(st, c, id, titulo, name)
    requires CardFits(Edited(st.cards.rows[id], c, Some(titulo), link, None, now))
    ensures var r := Update(st, c, id, Some(titulo), link, None, now);
      && r.0.cards.rows[id].imagemUrl == Url(c, ToSlug(titulo), name)
      && LocalPath(r.0.cards.rows[id].imagemUrl) in r.0.fs
  {
    var card := st.cards.rows[id];
    SceneRenames(st, c, id, titulo, name);
    RewriteUrl(c, ToSlug(card.titulo), ToSlug(titulo), name);
    RenameCarriesFile(st.fs, c, ToSlug(card.titulo), ToSlug(titulo), name);
    UrlNamesFile(c, ToSlug(titulo), name);
  }

  /** In a rename scene the slugs differ, both are single segments, and the rename goes through. */
  lemma SceneRenames(st: Shelf, c: Catalogue, id: nat, titulo: string, name: string)
    requires RenameScene(st, c, id, titulo, name)
    ensures var before := ToSlug(st.cards.rows[id].titulo);
      && before != ToSlug(titulo) && OneSegment(before) && OneSegment(ToSlug(titulo))
      && !RenameStuck(st.fs, c, before, ToSlug(titulo))
  {
    SlugIsSegment(st.cards.rows[id].titulo);
    SlugIsSegment(titulo);
    NestedOnlyUnderEmpty(c, ToSlug(st.cards.rows[id].titulo), ToSlug(titulo));
  }

  /**
   Changing the title and the image together leaves the old image behind: the directory rename
   carries it to the new directory, and the removal then targets its old path.
   */
  lemma TitleAndImageLeaveOldImage(st: Shelf, c: Catalogue, id: nat, titulo: string, link: Option<string>,
                                  name: string, file: CardUpload, now: nat)
    requires RenameScene(st, c, id, titulo, name)
    requires CardFits(Edited(st.cards.rows[id], c, Some(titulo), link, Some(file), now))
    requires FileName(now, file.originalname) != name && file.tempPath != PathOf(c, ToSlug(titulo), name)
    ensures var r := Update(st, c, id, Some(titulo), link, Some(file), now);
      && r.1.code == 200
      && PathOf(c, ToSlug(titulo), name) in r.0.fs
      && r.0.cards.rows[id].imagemUrl != Url(c, ToSlug(titulo), name)
  {
    var card := st.cards.rows[id];
    var before := ToSlug(card.titulo);
    var after := ToSlug(titulo);
    var newName := FileName(now, file.originalname);
    SceneRenames(st, c, id, titulo, name);
    TitleAndImageFiles(st, c, id, titulo, link, name, file, now);
    var fs1 := RenameTree(st.fs, Dir(c, before), Dir(c, after));
    var fs2 := MoveFile(MakeDir(fs1, c, after) - {PathOf(c, before, name)}, file.tempPath, PathOf(c, after, newName));
    assert PathOf(c, after, name) in fs2 by {
      RenameCarriesFile(st.fs, c, before, after, name);
      SlugPathsDiffer(c, before, after, name);
      NamePathsDiffer(c, after, newName, name);
    }
    UrlNamesDiffer(c, after, newName, name);
  }

  /** Different names in one directory have different URLs. */
  lemma UrlNamesDiffer(c: Catalogue, slug: string, a: string, b: string)
    requires a != b
    ensures Url(c, slug, a) != Url(c, slug, b)
  {
    var d := "/" + Top(c) + "/" + slug + "/";
    assert Url(c, slug, a) == d + a && Url(c, slug, b) == d + b;
    assert (d + a)[|d|..] == a && (d + b)[|d|..] == b;
  }

  /** The files after a title and image change: renamed, the old image's path removed, the new one moved in. */
  lemma TitleAndImageFiles(st: Shelf, c: Catalogue, id: nat, titulo: string, link: Option<string>,
                           name: string, file: CardUpload, now: nat)
    requires RenameScene(st, c, id, titulo, name)
    requires CardFits(Edited(st.cards.rows[id], c, Some(titulo), link, Some(file), now))
    ensures var before := ToSlug(st.cards.rows[id].titulo);
      var after := ToSlug(titulo);
      UpdateWith(st, c, id, Some(titulo), link, Some(file), now, false).0.fs
        == MoveFile(MakeDir(RenameTree(st.fs, Dir(c, before), Dir(c, after)), c, after) - {PathOf(c, before, name)},
                    file.tempPath, PathOf(c, after, FileName(now, file.originalname)))
  {
    SceneRenames(st, c, id, titulo, name);
    UrlNamesFile(c, ToSlug(st.cards.rows[id].titulo), name);
  }

  /** Files of the same name in directories of different slugs have different paths. */
  lemma SlugPathsDiffer(c: Catalogue, a: string, b: string, name: string)
    requires a != b
    ensures PathOf(c, a, name) != PathOf(c, b, name)
  {
    var ra := if a == "" then name else a + "/" + name;
    var rb := if b == "" then name else b + "/" + name;
    assert ra != rb by {
      if a != "" && b != "" && ra == rb {
        SlashNameSuffix(a, b, name);
      }
    }
    PathUnderFolder(c, a, name);
    PathUnderFolder(c, b, name);
    SuffixesDiffer(Top(c) + "/", ra, rb);
  }

  /** A card file's path is the folder, '/', and the rest (`slug/name`, or `name` for an empty slug). */
  lemma PathUnderFolder(c: Catalogue, slug: string, name: string)
    ensures PathOf(c, slug, name) == Top(c) + "/" + (if slug == "" then name else slug + "/" + name)
  {
  }

  /** Files of different names in one directory have different paths. */
  lemma NamePathsDiffer(c: Catalogue, slug: string, a: string, b: string)
    requires a != b
    ensures PathOf(c, slug, a) != PathOf(c, slug, b)
  {
    var d := Dir(c, slug) + "/";
    assert PathOf(c, slug, a) == d + a && PathOf(c, slug, b) == d + b;
    assert (d + a)[|d|..] == a && (d + b)[|d|..] == b;
  }

  /** Two paths `a/name` and `b/name` agree only when `a` and `b` do. */
  lemma SlashNameSuffix(a: string, b: string, name: string)
    requires a + "/" + name == b + "/" + name
    ensures a == b
  {
    assert a == (a + "/" + name)[..|a|];
    assert b == (b + "/" + name)[..|b|];
  }

  /** `update` with the removal aimed at the rewritten URL, where the rename has carried the old image. */
  function UpdateRemovingCarried(st: Shelf, c: Catalogue, id: nat, titulo: Option<string>, link: Option<string>,
                                 file: Option<CardUpload>, now: nat): (r: (Shelf, Reply))
    ensures id !in st.cards.rows ==> r == (st, Reply(404, c.NotFound()))
    ensures file.None? ==> r == Update(st, c, id, titulo, link, file, now)
  {
    UpdateWith(st, c, id, titulo, link, file, now, true)
  }

  /** With the removal aimed at the rewritten URL, a title and image change leaves no old image. */
  lemma TitleAndImageRemoveOldImage(st: Shelf, c: Catalogue, id: nat, titulo: string, link: Option<string>,
                                   name: string, file: CardUpload, now: nat)
    requires RenameScene(st, c, id, titulo, name)
    requires CardFits(Edited(st.cards.rows[id], c, Some(titulo), link, Some(file), now))
    requires FileName(now, file.originalname) != name
    ensures var r := UpdateRemovingCarried(st, c, id, Some(titulo), link, Some(file), now);
      && r.1.code == 200
      && PathOf(c, ToSlug(titulo), name) !in r.0.fs
      && r.0.cards.rows[id].imagemUrl == Url(c, ToSlug(titulo), FileName(now, file.originalname))
  {
    var card := st.cards.rows[id];
    SceneRenames(st, c, id, titulo, name);
    RewriteUrl(c, ToSlug(card.titulo), ToSlug(titulo), name);
    UrlNamesFile(c, ToSlug(titulo), name);
    NamePathsDiffer(c, ToSlug(titulo), FileName(now, file.originalname), name);
  }

  /**
   The removal of a card (`deleteByTitle` of a box, `forceDelete` of a course): its slug
   directory with everything in it, then its row.
   */
  function Destroy(st: Shelf, c: Catalogue, id: nat): (r: Shelf)
    requires id in st.cards.rows
    ensures r.cards.rows == st.cards.rows - {id}
    ensures forall p :: p in st.fs ==> (p in r.fs <==> !Under(p, Dir(c, ToSlug(st.cards.rows[id].titulo))))
    ensures r.fs <= st.fs
  {
    Shelf(RemoveTree(st.fs, Dir(c, ToSlug(st.cards.rows[id].titulo))), Delete(st.cards, id))
  }

  /** Two titles with the same slug share a directory: removing one card removes the other's image too. */
  lemma SharedSlugShareFate(st: Shelf, c: Catalogue, id: nat, other: nat, name: string)
    requires id in st.cards.rows && other in st.cards.rows
    requires ToSlug(st.cards.rows[id].titulo) == ToSlug(st.cards.rows[other].titulo)
    requires PathOf(c, ToSlug(st.cards.rows[other].titulo), name) in st.fs
    ensures PathOf(c, ToSlug(st.cards.rows[other].titulo), name) !in Destroy(st, c, id).fs
  {
    FileInDir(c, ToSlug(st.cards.rows[other].titulo), name);
  }

  /**
   A title without a letter or digit has the empty slug, whose directory is the catalogue folder:
   destroying that card removes every card's files.
   */
  lemma EmptySlugDestroyWipesFolder(st: Shelf, c: Catalogue, id: nat)
    requires id in st.cards.rows && ToSlug(st.cards.rows[id].titulo) == ""
    ensures forall k, name :: k in st.cards.rows ==> PathOf(c, ToSlug(st.cards.rows[k].titulo), name) !in Destroy(st, c, id).fs
  {
    forall k, name | k in st.cards.rows
      ensures Under(PathOf(c, ToSlug(st.cards.rows[k].titulo), name), Dir(c, ""))
    {
      FileInFolder(c, ToSlug(st.cards.rows[k].titulo), name);
    }
  }

  /** Every card's files lie in the catalogue folder. */
  lemma FileInFolder(c: Catalogue, slug: string, name: string)
    ensures Under(PathOf(c, slug, name), Top(c))
  {
    var rest := if slug == "" then name else slug + "/" + name;
    assert PathOf(c, slug, name) == Top(c) + "/" + rest;
    BelowDir(Top(c), rest);
  }

  /**
   The removal with the empty slug taken care of: a card without a directory of its own loses
   only the file its URL names.
   */
  function DestroyOwn(st: Shelf, c: Catalogue, id: nat): (r: Shelf)
    requires id in st.cards.rows
    ensures r.cards.rows == st.cards.rows - {id}
    ensures ToSlug(st.cards.rows[id].titulo) != "" ==> r == Destroy(st, c, id)
    ensures ToSlug(st.cards.rows[id].titulo) == "" ==>
      forall p :: p in st.fs ==> (p in r.fs <==> p != LocalPath(st.cards.rows[id].imagemUrl))
  {
    var card := st.cards.rows[id];
    if ToSlug(card.titulo) == "" then Shelf(st.fs - {LocalPath(card.imagemUrl)}, Delete(st.cards, id))
    else Destroy(st, c, id)
  }

  /** With the corrected removal, a card in a directory of its own keeps its files when another card goes. */
  lemma DestroyOwnSparesOthers(st: Shelf, c: Catalogue, id: nat, other: nat, name: string)
    requires id in st.cards.rows && other in st.cards.rows
    requires ToSlug(st.cards.rows[other].titulo) != "" && ToSlug(st.cards.rows[other].titulo) != ToSlug(st.cards.rows[id].titulo)
    requires PathOf(c, ToSlug(st.cards.rows[other].titulo), name) in st.fs
    requires PathOf(c, ToSlug(st.cards.rows[other].titulo), name) != LocalPath(st.cards.rows[id].imagemUrl)
    ensures PathOf(c, ToSlug(st.cards.rows[other].titulo), name) in DestroyOwn(st, c, id).fs
  {
    var mine := ToSlug(st.cards.rows[id].titulo);
    var theirs := ToSlug(st.cards.rows[other].titulo);
    if mine != "" {
      SlugIsSegment(st.cards.rows[id].titulo);
      SlugIsSegment(st.cards.rows[other].titulo);
      FileOutsideOtherDir(c, mine, theirs, name);
    }
  }

  /** A file of one non-empty slug's directory is not below another non-empty slug's directory. */
  lemma FileOutsideOtherDir(c: Catalogue, a: string, b: string, name: string)
    requires a != "" && b != "" && a != b && OneSegment(a) && OneSegment(b)
    ensures !Under(PathOf(c, b, name), Dir(c, a))
  {
    var top := "uploads/" + c.Folder() + "/";
    assert PathOf(c, b, name) == top + (b + "/" + name) && Dir(c, a) == top + a;
    UnderDropPrefix(top, b + "/" + name, a);
    SiblingNotUnder(a, b, name);
  }

  /** `deleteByTitle` (newsletter): the box with that title, if any, is destroyed. */
  function DeleteByTitle(st: Shelf, titulo: string): (r: (Shelf, Reply))
    ensures (forall k :: k in st.cards.rows ==> st.cards.rows[k].titulo != titulo) <==> r.1.code == 404
    ensures r.1.code == 404 ==> r == (st, Reply(404, Newsletter.NotFound()))
    ensures r.1.code != 404 ==>
      exists k :: k in st.cards.rows && st.cards.rows[k].titulo == titulo
        && r == (Destroy(st, Newsletter, k), Reply(200, "Box removida com sucesso."))
  {
    match FindOne(st.cards, (k: Card) => k.titulo == titulo)
    case None => (st, Reply(404, Newsletter.NotFound()))
    case Some(k) => (Destroy(st, Newsletter, k), Reply(200, "Box removida com sucesso."))
  }

  /** `forceDelete` (courses). */
  function ForceDelete(st: Shelf, id: nat): (r: (Shelf, Reply))
    ensures id !in st.cards.rows ==> r == (st, Reply(404, Courses.NotFound()))
    ensures id in st.cards.rows ==> r == (Destroy(st, Courses, id), Reply(200, "Curso excluído permanentemente."))
  {
    if id !in st.cards.rows then (st, Reply(404, Courses.NotFound()))
    else (Destroy(st, Courses, id), Reply(200, "Curso excluído permanentemente."))
  }

  /** `delete` and `reactivate` (courses): the course's `ativo` is set, nothing else changes. */
  function SetAtivo(t: Table<Card>, id: nat, ativo: bool): (r: (Table<Card>, Reply))
    ensures id !in t.rows ==> r == (t, Reply(404, Courses.NotFound()))
    ensures id in t.rows ==>
      && r.1 == Reply(200, if ativo then "Curso reativado com sucesso." else "Curso arquivado com sucesso.")
      && r.0.rows.Keys == t.rows.Keys
      && r.0.rows[id].ativo == ativo
      && r.0.rows[id].(ativo := t.rows[id].ativo) == t.rows[id]
      && forall k :: k in t.rows && k != id ==> r.0.rows[k] == t.rows[k]
  {
    if id !in t.rows then (t, Reply(404, Courses.NotFound()))
    else
      (Put(t, id, t.rows[id].(ativo := ativo)),
       Reply(200, if ativo then "Curso reativado com sucesso." else "Curso arquivado com sucesso."))
  }

  /** Reactivating an archived course gives back the table it was archived from. */
  lemma ReactivateUndoesArchive(t: Table<Card>, id: nat)
    requires id in t.rows && t.rows[id].ativo
    ensures SetAtivo(SetAtivo(t, id, false).0, id, true).0 == t
  {
    var t1 := SetAtivo(t, id, false).0;
    var t2 := SetAtivo(t1, id, true).0;
    assert t2.rows == t.rows;
  }

  /** `registrarClique` (courses): the course's view count goes up by one. */
  function RegisterClick(t: Table<Card>, id: nat): (r: (Table<Card>, Reply))
    ensures id !in t.rows ==> r == (t, Reply(404, Courses.NotFound()))
    ensures id in t.rows ==>
      && r.1 == Reply(200, "Clique registrado.")
      && r.0.rows.Keys == t.rows.Keys
      && r.0.rows[id].visualizacoes == t.rows[id].visualizacoes + 1
      && r.0.rows[id].(visualizacoes := t.rows[id].visualizacoes) == t.rows[id]
      && forall k :: k in t.rows && k != id ==> r.0.rows[k] == t.rows[k]
  {
    if id !in t.rows then (t, Reply(404, Courses.NotFound()))
    else
      var card := t.rows[id];
      (Put(t, id, card.(visualizacoes := card.visualizacoes + 1)), Reply(200, "Clique registrado."))
  }

  /** `n` clicks on a course add `n` to its views. */
  function Clicks(t: Table<Card>, id: nat, n: nat): Table<Card>
    decreases n
  {
    if n == 0 then t else Clicks(RegisterClick(t, id).0, id, n - 1)
  }

  lemma {:induction false} ClicksCount(t: Table<Card>, id: nat, n: nat)
    requires id in t.rows
    ensures id in Clicks(t, id, n).rows
    ensures Clicks(t, id, n).rows[id].visualizacoes == t.rows[id].visualizacoes + n
    ensures Clicks(t, id, n).rows.Keys == t.rows.Keys
    decreases n
  {
    if n > 0 {
      ClicksCount(RegisterClick(t, id).0, id, n - 1);
    }
  }

  /** The status filter of the course listing: "ativo", "inativo" or anything else for all. */
  function StatusFilter(status: Option<string>): Card -> bool {
    if status == Some("ativo") then (k: Card) => k.ativo
    else if status == Some("inativo") then (k: Card) => !k.ativo
    else (k: Card) => true
  }

  /** `getAll` (courses): the ids of the courses the filter keeps, newest first. */
  function ListCourses(t: Table<Card>, status: Option<string>): (r: seq<nat>)
    ensures status == Some("ativo") ==> forall k :: k in r <==> k in t.rows && t.rows[k].ativo
    ensures status == Some("inativo") ==> forall k :: k in r <==> k in t.rows && !t.rows[k].ativo
    ensures status != Some("ativo") && status != Some("inativo") ==> forall k :: k in r <==> k in t.rows
    ensures forall i, j :: 0 <= i < j < |r| ==> r[i] > r[j]
  {
    FindAllNewestFirst(t, StatusFilter(status))
  }

  /** The active and inactive listings split the full listing between them. */
  lemma ListingsPartition(t: Table<Card>)
    ensures forall k :: k in ListCourses(t, None) <==> (k in ListCourses(t, Some("ativo")) || k in ListCourses(t, Some("inativo")))
    ensures forall k :: !(k in ListCourses(t, Some("ativo")) && k in ListCourses(t, Some("inativo")))
  {
  }

  /** A newsletter box as listed, with its clicks in the window when one was asked for. */
  datatype Listing = Listing(id: nat, card: Card, views: Option<nat>)

  /** The ids of a listing, in its order. */
  function IdsOf(r: seq<Listing>): (ids: seq<nat>)
    ensures |ids| == |r| && forall i :: 0 <= i < |r| ==> ids[i] == r[i].id
  {
    seq(|r|, i requires 0 <= i < |r| => r[i].id)
  }

  /**
   `getAll` (newsletter): every box, newest first. With both dates given, each box carries the
   number of its clicks in the window (`clicks`, counted by the database), 0 when it has none.
   */
  function ListBoxes(t: Table<Card>, startDate: Option<string>, endDate: Option<string>, clicks: map<nat, nat>): (r: seq<Listing>)
    ensures forall k :: k in IdsOf(r) <==> k in t.rows
    ensures forall i, j :: 0 <= i < j < |r| ==> r[i].id > r[j].id
    ensures forall i :: 0 <= i < |r| ==> r[i].id in t.rows && r[i].card == t.rows[r[i].id]
    ensures !Filled(startDate) || !Filled(endDate) ==> forall i :: 0 <= i < |r| ==> r[i].views.None?
    ensures Filled(startDate) && Filled(endDate) ==>
      forall i :: 0 <= i < |r| ==> r[i].views == Some(if r[i].id in clicks then clicks[r[i].id] else 0)
  {
    var ids := FindAllNewestFirst(t, AnyCard);
    AllCardsListed(t);
    var r := Annotate(t, ids, Filled(startDate) && Filled(endDate), clicks);
    assert IdsOf(r) == ids;
    r
  }

  /** The filter of a listing without a `where`. */
  predicate AnyCard(c: Card) { true }

  /** The unfiltered listing holds exactly the table's ids. */
  lemma AllCardsListed(t: Table<Card>)
    ensures forall k :: k in FindAllNewestFirst(t, AnyCard) <==> k in t.rows
  {
    forall k | k in t.rows ensures k in FindAllNewestFirst(t, AnyCard) {
      assert AnyCard(t.rows[k]);
    }
  }

  /** One box as listed, with its window clicks when `window` holds. */
  function Entry(t: Table<Card>, id: nat, window: bool, clicks: map<nat, nat>): Listing
    requires id in t.rows
  {
    Listing(id, t.rows[id], if window then Some(if id in clicks then clicks[id] else 0) else None)
  }

  /** The listing of the boxes `ids`, in their order. */
  function Annotate(t: Table<Card>, ids: seq<nat>, window: bool, clicks: map<nat, nat>): (r: seq<Listing>)
    requires forall k :: k in ids ==> k in t.rows
    ensures |r| == |ids|
    ensures forall i :: 0 <= i < |r| ==> r[i] == Entry(t, ids[i], window, clicks)
  {
    seq(|ids|, i requires 0 <= i < |ids| => Entry(t, ids[i], window, clicks))
  }

  /** The navbar counter key of the newsletter. */
  const NavKey := "SUSTENTAI_NAV"

  /**
   `registerNavClick`: the counter under the navbar key is created at 1 or incremented, and an
   access is appended to the menu history.
   */
  function NavClick(counters: map<string, nat>, history: seq<string>): (r: (map<string, nat>, seq<string>))
    ensures NavKey in r.0 && r.0[NavKey] == (if NavKey in counters then counters[NavKey] else 0) + 1
    ensures forall k :: k in counters && k != NavKey ==> k in r.0 && r.0[k] == counters[k]
    ensures r.0.Keys == counters.Keys + {NavKey}
    ensures r.1 == history + [NavKey]
  {
    var count := if NavKey in counters then counters[NavKey] + 1 else 1;
    (counters[NavKey := count], history + [NavKey])
  }

  /** `n` navbar clicks. */
  function NavClicks(counters: map<string, nat>, history: seq<string>, n: nat): (map<string, nat>, seq<string>)
    decreases n
  {
    if n == 0 then (counters, history)
    else
      var (c, h) := NavClick(counters, history);
      NavClicks(c, h, n - 1)
  }

  /** After `n` navbar clicks the counter has grown by `n` and the history by `n` entries, all the key. */
  lemma {:induction false} NavClicksCount(counters: map<string, nat>, history: seq<string>, n: nat)
    ensures var r := NavClicks(counters, history, n);
      && (n > 0 ==> NavKey in r.0 && r.0[NavKey] == (if NavKey in counters then counters[NavKey] else 0) + n)
      && |r.1| == |history| + n && r.1[..|history|] == history
      && forall i :: |history| <= i < |r.1| ==> r.1[i] == NavKey
    decreases n
  {
    if n > 0 {
      var (c, h) := NavClick(counters, history);
      NavClicksCount(c, h, n - 1);
      var r := NavClicks(c, h, n - 1);
      assert r.1[..|h|] == h;
      assert r.1[..|history|] == h[..|history|];
    }
  }
}
