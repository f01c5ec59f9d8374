/**
 * The upload helpers: the extension check `allowed_file` against the configured
 * set of allowed extensions, the generated storage name, and path joining in the
 * upload folder.
 */
module Uploads {
  import opened Optional
  import opened Ascii

  /** The configured `ALLOWED_EXTENSIONS`. */
  const ALLOWED_EXTENSIONS: set<string> := {"txt", "pdf", "png", "jpg", "jpeg", "gif", "doc", "docx"}

  /** The configured `UPLOAD_FOLDER`. */
  const UPLOAD_FOLDER := "app/static/uploads"

  /** `i` is the position of the last '.' in `s`. */
  ghost predicate IsLastDot(s: string, i: int) {
    0 <= i < |s| && s[i] == '.' && forall j :: i < j < |s| ==> s[j] != '.'
  }

  /** Where `s.rsplit('.', 1)` splits: the position of the last '.', if any. */
  function LastDot(s: string): (r: Option<nat>)
    ensures r.None? <==> '.' !in s
    ensures r.Some? ==> IsLastDot(s, r.value)
  {
    if s == [] then None
    else if s[|s| - 1] == '.' then Some(|s| - 1)
    else
      var r := LastDot(s[..|s| - 1]);
      assert forall c :: c in s <==> c in s[..|s| - 1] || c == s[|s| - 1] by {
        assert s == s[..|s| - 1] + [s[|s| - 1]];
      }
      r
  }

  /** Allowed extensions, compared after lowering. */
  predicate AllowedExtension(ext: string) {
    Lower(ext) in ALLOWED_EXTENSIONS
  }

  /** `allowed_file`: there is a '.', and the lowered text after the last one is an allowed extension. */
  predicate AllowedFile(filename: string) {
    match LastDot(filename)
    case None => false
    case Some(i) => AllowedExtension(filename[i + 1..])
  }

  lemma LastDotUnique(s: string, i: int)
    requires IsLastDot(s, i)
    ensures LastDot(s) == Some(i)
  {
    assert s[i] in s;
  }

  /** The text after the last '.' has property `p` exactly when some last '.' is followed by such text. */
  lemma LastDotExtension(f: string, p: string -> bool)
    ensures (LastDot(f).Some? && p(f[LastDot(f).value + 1..])) <==> exists i :: IsLastDot(f, i) && p(f[i + 1..])
  {
    if exists i :: IsLastDot(f, i) && p(f[i + 1..]) {
      var i :| IsLastDot(f, i) && p(f[i + 1..]);
      LastDotUnique(f, i);
    }
  }

  /** The extension check, stated without `LastDot`. */
  lemma AllowedFileSpec(f: string)
    ensures AllowedFile(f) <==> exists i :: IsLastDot(f, i) && AllowedExtension(f[i + 1..])
  {
    LastDotExtension(f, AllowedExtension);
  }

  /** The comparison ignores case and only the text after the last '.' counts. */
  lemma AllowedFileAccepts()
    ensures AllowedFile("a.PDF") && AllowedFile("x.tar.pdf")
  {
    LastDotUnique("a.PDF", 1);
    assert "a.PDF"[2..] == "PDF";
    assert Lower("PDF") == "pdf";
    LastDotUnique("x.tar.pdf", 5);
    assert "x.tar.pdf"[6..] == "pdf";
    assert Lower("pdf") == "pdf";
  }

  /** A name without '.', or ending in '.', or with a disallowed last extension is refused. */
  lemma AllowedFileRejects()
    ensures !AllowedFile("noext") && !AllowedFile("file.") && !AllowedFile("notes.pdf.exe")
  {
    assert '.' !in "noext";
    LastDotUnique("file.", 4);
    assert "file."[5..] == [];
    LastDotUnique("notes.pdf.exe", 9);
    assert "notes.pdf.exe"[10..] == "exe";
    assert Lower("exe") == "exe";
  }

  /** The storage name: the random token, '_', and the sanitized original name. */
  function StoredName(token: string, original: string): (r: string)
    ensures token + "_" <= r
    ensures r[|token| + 1..] == original
  {
    token + "_" + original
  }

  /** Tokens of one length (as uuid4 strings are) that differ give different storage names. */
  lemma StoredNamesDistinct(t1: string, t2: string, a: string, b: string)
    requires |t1| == |t2| && t1 != t2
    ensures StoredName(t1, a) != StoredName(t2, b)
  {
    var x, y := StoredName(t1, a), StoredName(t2, b);
    assert x[..|t1|] == t1;
    assert y[..|t2|] == t2;
  }

  /** `posixpath.join(dir, name)` for two components: an absolute `name` replaces `dir`. */
  function JoinPath(dir: string, name: string): (p: string)
  {
    if |name| > 0 && name[0] == '/' then name
    else if dir == [] || dir[|dir| - 1] == '/' then dir + name
    else dir + "/" + name
  }

  /** The joined path always ends with the file name. */
  lemma JoinPathEndsWithName(dir: string, name: string)
    ensures |name| <= |JoinPath(dir, name)|
    ensures JoinPath(dir, name)[|JoinPath(dir, name)| - |name|..] == name
  {
  }

  lemma JoinUploadFolder(name: string)
    requires name == [] || name[0] != '/'
    ensures JoinPath(UPLOAD_FOLDER, name) == UPLOAD_FOLDER + "/" + name
  {
  }
}
