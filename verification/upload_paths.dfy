/**
 Where the project controller puts uploaded files: the name sanitiser, the
 `uploads/{ods}/{project}` directory, the stored paths, and the data it hands to the service.
 */
module UploadPaths {
  import opened Wrappers
  import opened Text
  import opened Json
  import opened FileSystem

  const Root := "uploads"
  const DefaultOds := "geral"
  const DefaultName := "projeto_sem_nome"

  predicate IsSafeChar(c: char) {
    IsLower(c) || IsDigit(c) || c == '_'
  }

  /** The first pass of `sanitize`: every character outside [A-Za-z0-9] becomes '_'. */
  function Underscore(s: string): string {
    seq(|s|, i requires 0 <= i < |s| => if IsAlnum(s[i]) then s[i] else '_')
  }

  /** `sanitize`: the underscore pass, then `toLowerCase`. */
  function Sanitize(s: string): string {
    Lower(Underscore(s))
  }

  /**
   The sanitised name has the input's length, uses only [a-z0-9_], keeps each letter or digit
   (lower-cased) at its place and puts '_' exactly where the input had anything else.
   */
  lemma SanitizeChars(s: string)
    ensures |Sanitize(s)| == |s|
    ensures forall i :: 0 <= i < |s| ==> IsSafeChar(Sanitize(s)[i])
    ensures forall i :: 0 <= i < |s| ==>
      Sanitize(s)[i] == (if IsAlnum(s[i]) then LowerChar(s[i]) else '_')
  {
  }

  /** Sanitising a sanitised name changes nothing. */
  lemma SanitizeIdempotent(s: string)
    ensures Sanitize(Sanitize(s)) == Sanitize(s)
  {
    SanitizeChars(s);
    var t := Sanitize(s);
    SanitizeChars(t);
    assert forall i :: 0 <= i < |t| ==> Sanitize(t)[i] == t[i];
  }

  /** `a || b` on two strings. */
  function OrElse(a: string, b: string): string {
    if a != "" then a else b
  }

  /** The two sanitised directory segments, `uploads/{safeOds}/{safeName}`. */
  datatype Target = Target(safeOds: string, safeName: string) {
    function Dir(): string {
      Root + "/" + safeOds + "/" + safeName
    }
    function PathOf(filename: string): string {
      Dir() + "/" + filename
    }
  }

  /**
   The target directory: the existing project's ods and name (when non-empty) win over the
   form's, and an ods or name that is still empty becomes `geral` / `projeto_sem_nome`.
   The existing values are "" when no existing project is given.
   */
  function TargetFor(existingOds: string, existingName: string, form: Object): (t: Target)
    ensures existingOds != "" ==> t.safeOds == Sanitize(existingOds)
    ensures existingOds == "" && TextOf(Get(form, "ods")) != "" ==> t.safeOds == Sanitize(TextOf(Get(form, "ods")))
    ensures existingOds == "" && TextOf(Get(form, "ods")) == "" ==> t.safeOds == DefaultOds
    ensures existingName != "" ==> t.safeName == Sanitize(existingName)
    ensures existingName == "" && TextOf(Get(form, "nomeProjeto")) != "" ==> t.safeName == Sanitize(TextOf(Get(form, "nomeProjeto")))
    ensures existingName == "" && TextOf(Get(form, "nomeProjeto")) == "" ==> t.safeName == DefaultName
  {
    var ods := OrElse(existingOds, TextOf(Get(form, "ods")));
    var nome := OrElse(existingName, TextOf(Get(form, "nomeProjeto")));
    var t := Target(Sanitize(OrElse(ods, DefaultOds)), Sanitize(OrElse(nome, DefaultName)));
    assert Sanitize(DefaultOds) == DefaultOds by { SanitizeChars(DefaultOds); }
    assert Sanitize(DefaultName) == DefaultName by { SanitizeChars(DefaultName); }
    t
  }

  /** With an existing project, the form's ods and name never influence where files go. */
  lemma ExistingInfoDecides(ods: string, name: string, form1: Object, form2: Object)
    requires ods != "" && name != ""
    ensures TargetFor(ods, name, form1) == TargetFor(ods, name, form2)
  {
  }

  /** Every stored path lies in its target directory, and the directory segments use only [a-z0-9_]. */
  lemma StoredPathShape(t: Target, filename: string)
    ensures Under(t.PathOf(filename), t.Dir())
    ensures t.PathOf(filename) == "uploads/" + t.safeOds + "/" + t.safeName + "/" + filename
  {
  }

  /** A file multer has written to its temporary area: its path and its generated name. */
  datatype Upload = Upload(tempPath: string, filename: string)

  /** The uploaded files of a request, per form field. */
  datatype Uploads = Uploads(logo: seq<Upload>, imagens: seq<Upload>) {
    function All(): seq<Upload> {
      logo + imagens
    }
    /** Only the first `logo` file is used. */
    function FirstLogo(): seq<Upload> {
      if |logo| > 0 then [logo[0]] else []
    }
  }

  /** No temporary path lies in the target directory (multer writes to its own temporary area). */
  predicate TempsOutside(us: seq<Upload>, dir: string) {
    forall i :: 0 <= i < |us| ==> !Under(us[i].tempPath, dir)
  }

  /** Moves each file, in order, into `t`'s directory; returns the new paths in the same order. */
  function MoveAll(fs: Fs, t: Target, us: seq<Upload>): (r: (Fs, seq<string>))
    ensures |r.1| == |us|
    ensures forall i :: 0 <= i < |us| ==> r.1[i] == t.PathOf(us[i].filename)
    ensures TempsOutside(us, t.Dir()) ==> forall i :: 0 <= i < |us| ==> r.1[i] in r.0
    ensures forall p :: p in fs && (forall i :: 0 <= i < |us| ==> us[i].tempPath != p) ==> p in r.0
    ensures forall p :: p in r.0 ==> p in fs || p in r.1
    decreases |us|
  {
    if |us| == 0 then (fs, [])
    else
      var dest := t.PathOf(us[0].filename);
      var fs1 := MoveFile(fs, us[0].tempPath, dest);
      var rest := MoveAll(fs1, t, us[1..]);
      assert TempsOutside(us, t.Dir()) ==> dest in rest.0 by {
        if TempsOutside(us, t.Dir()) {
          StoredPathShape(t, us[0].filename);
          forall i | 0 <= i < |us[1..]| ensures us[1..][i].tempPath != dest {
            assert !Under(us[i + 1].tempPath, t.Dir());
          }
        }
      }
      (rest.0, [dest] + rest.1)
  }

  function Strs(ps: seq<string>): (r: seq<Value>)
    ensures |r| == |ps| && forall i :: 0 <= i < |ps| ==> r[i] == Str(ps[i])
  {
    seq(|ps|, i requires 0 <= i < |ps| => Str(ps[i]))
  }

  /** The form data with the moved logo path and image paths written over `logo` and `imagens`. */
  function WithPaths(form: Object, logoPaths: seq<string>, imagePaths: seq<string>): (data: Object)
    ensures |logoPaths| > 0 ==> "logo" in data && data["logo"] == Str(logoPaths[0])
    ensures |logoPaths| == 0 ==> Get(data, "logo") == Get(form, "logo")
    ensures |imagePaths| > 0 ==> "imagens" in data && data["imagens"] == Arr(Strs(imagePaths))
    ensures |imagePaths| == 0 ==> Get(data, "imagens") == Get(form, "imagens")
    ensures forall k :: k in form && k != "logo" && k != "imagens" ==> k in data && data[k] == form[k]
    ensures forall k :: k in data ==> k in form || k == "logo" || k == "imagens"
  {
    var withLogo := if |logoPaths| > 0 then form["logo" := Str(logoPaths[0])] else form;
    if |imagePaths| > 0 then withLogo["imagens" := Arr(Strs(imagePaths))] else withLogo
  }

  /** The relocated files and the data handed to the service. */
  datatype Prepared = Prepared(fs: Fs, data: Object)

  /**
   `_moveFilesAndPrepareData`: creates the target directory, moves the first `logo` file and
   every `imagens` file into it, and returns the form data with `logo` added only when a logo was
   uploaded and `imagens` only when at least one image was, in upload order.
   */
  function Prepare(fs: Fs, form: Object, files: Uploads, existingOds: string, existingName: string): (r: Prepared)
    ensures var t := TargetFor(existingOds, existingName, form);
      TempsOutside(files.All(), t.Dir()) ==>
        && t.Dir() in r.fs
        && (|files.logo| > 0 ==> t.PathOf(files.logo[0].filename) in r.fs)
        && (forall i :: 0 <= i < |files.imagens| ==> t.PathOf(files.imagens[i].filename) in r.fs)
    ensures var t := TargetFor(existingOds, existingName, form);
      |files.logo| > 0 ==> "logo" in r.data && r.data["logo"] == Str(t.PathOf(files.logo[0].filename))
    ensures |files.logo| == 0 ==> Get(r.data, "logo") == Get(form, "logo")
    ensures var t := TargetFor(existingOds, existingName, form);
      |files.imagens| > 0 ==>
        && "imagens" in r.data && r.data["imagens"].Arr?
        && |r.data["imagens"].items| == |files.imagens|
        && forall i :: 0 <= i < |files.imagens| ==> r.data["imagens"].items[i] == Str(t.PathOf(files.imagens[i].filename))
    ensures |files.imagens| == 0 ==> Get(r.data, "imagens") == Get(form, "imagens")
    ensures forall k :: k in form && k != "logo" && k != "imagens" ==> k in r.data && r.data[k] == form[k]
    ensures forall k :: k in r.data ==> k in form || k == "logo" || k == "imagens"
  {
    var t := TargetFor(existingOds, existingName, form);
    var fs0 := fs + {Root, Root + "/" + t.safeOds, t.Dir()};
    var (fs1, logoPaths) := MoveAll(fs0, t, files.FirstLogo());
    var (fs2, imagePaths) := MoveAll(fs1, t, files.imagens);
    var data := WithPaths(form, logoPaths, imagePaths);
    if TempsOutside(files.All(), t.Dir()) then
      MovedUploadsPresent(fs0, t, files);
      Prepared(fs2, data)
    else
      Prepared(fs2, data)
  }

  /** Moving the first logo and then the images leaves the directory and every moved file in place. */
  lemma MovedUploadsPresent(fs0: Fs, t: Target, files: Uploads)
    requires t.Dir() in fs0 && TempsOutside(files.All(), t.Dir())
    ensures var fs1 := MoveAll(fs0, t, files.FirstLogo()).0;
      var fs2 := MoveAll(fs1, t, files.imagens).0;
      && t.Dir() in fs2
      && (|files.logo| > 0 ==> t.PathOf(files.logo[0].filename) in fs2)
      && (forall i :: 0 <= i < |files.imagens| ==> t.PathOf(files.imagens[i].filename) in fs2)
  {
    var logos := files.FirstLogo();
    var fs1 := MoveAll(fs0, t, logos).0;
    assert forall i :: 0 <= i < |logos| ==> logos[i] == files.All()[0];
    assert forall i :: 0 <= i < |files.imagens| ==> files.imagens[i] == files.All()[|files.logo| + i];
    assert TempsOutside(logos, t.Dir());
    assert TempsOutside(files.imagens, t.Dir());
    assert t.Dir() in fs1;
    if |files.logo| > 0 {
      var lp := t.PathOf(files.logo[0].filename);
      StoredPathShape(t, files.logo[0].filename);
      assert lp in fs1;
      assert forall i :: 0 <= i < |files.imagens| ==> files.imagens[i].tempPath != lp;
    }
  }
}
