/** The upload filter (`src/app/middlewares/multer.js`): a file is accepted when both its
    mimetype and its lower-cased extension match `/jpeg|jpg|png|jfif/`, and uploads are
    capped at 10 MiB. */
module Multer {
  import opened Common
  import opened Text

  /** `limits.fileSize`. */
  const FileSizeLimit: nat := 10 * 1024 * 1024

  /** The reference reading of `/jpeg|jpg|png|jfif/`: one of the four words occurs
      somewhere in `s`, case-sensitively and unanchored. */
  predicate MentionsImageType(s: string) {
    Contains(s, "jpeg") || Contains(s, "jpg") || Contains(s, "png") || Contains(s, "jfif")
  }

  /** One of the alternatives matches at position `i`. */
  predicate AlternativeAt(s: string, i: nat) {
    OccursAt(s, "jpeg", i) || OccursAt(s, "jpg", i) || OccursAt(s, "png", i) || OccursAt(s, "jfif", i)
  }

  /** `regex.test(s)` as the engine runs it: try the alternatives at each start position,
      left to right, from `i` on. */
  function TestFrom(s: string, i: nat): bool
    decreases |s| - i
  {
    if i > |s| then false else AlternativeAt(s, i) || TestFrom(s, i + 1)
  }

  lemma {:induction false} TestFromFindsMatch(s: string, i: nat)
    ensures TestFrom(s, i) <==> exists j: nat :: i <= j <= |s| && AlternativeAt(s, j)
    decreases |s| - i
  {
    if i <= |s| {
      TestFromFindsMatch(s, i + 1);
      if TestFrom(s, i) && !AlternativeAt(s, i) {
        var j: nat :| i + 1 <= j <= |s| && AlternativeAt(s, j);
      }
      if exists j: nat :: i <= j <= |s| && AlternativeAt(s, j) {
        var j: nat :| i <= j <= |s| && AlternativeAt(s, j);
        if j > i {
          assert exists j: nat :: i + 1 <= j <= |s| && AlternativeAt(s, j);
        }
      }
    }
  }

  /** The scanning test agrees with the reference reading. */
  lemma TestMeansMention(s: string)
    ensures TestFrom(s, 0) <==> MentionsImageType(s)
  {
    TestFromFindsMatch(s, 0);
    if MentionsImageType(s) {
      var j: nat :| j <= |s| && (OccursAt(s, "jpeg", j) || OccursAt(s, "jpg", j) || OccursAt(s, "png", j) || OccursAt(s, "jfif", j));
      assert AlternativeAt(s, j);
    }
  }

  /** Characters of `path` with any trailing `/` removed. */
  function DropTrailingSlashes(path: string): (r: string)
    ensures |r| <= |path| && r == path[..|r|] && (|r| > 0 ==> r[|r| - 1] != '/')
  {
    if |path| > 0 && path[|path| - 1] == '/' then DropTrailingSlashes(path[..|path| - 1]) else path
  }

  /** The last path component: the characters after the last `/`. */
  function BaseName(path: string): (b: string)
    ensures |b| <= |path| && b == path[|path| - |b|..] && '/' !in b
    ensures '/' !in path ==> b == path
  {
    if |path| == 0 || path[|path| - 1] == '/' then ""
    else
      assert path == path[..|path| - 1] + [path[|path| - 1]];
      BaseName(path[..|path| - 1]) + [path[|path| - 1]]
  }

  /** The position of the last `c` in `s`. */
  function LastIndex(s: string, c: char): (r: Option<nat>)
    ensures r.None? <==> c !in s
    ensures r.Some? ==> r.value < |s| && s[r.value] == c
    ensures r.Some? ==> forall k :: r.value < k < |s| ==> s[k] != c
  {
    if |s| == 0 then None
    else if s[|s| - 1] == c then Some(|s| - 1)
    else
      assert s == s[..|s| - 1] + [s[|s| - 1]];
      LastIndex(s[..|s| - 1], c)
  }

  /** `path.extname`: from the last `.` of the last component to its end; empty when the
      component has no `.`, starts with its only `.`, or is `..`. */
  function ExtName(path: string): (r: string)
    ensures r != "" ==> r[0] == '.' && '/' !in r && forall k :: 1 <= k < |r| ==> r[k] != '.'
    ensures '.' !in path ==> r == ""
  {
    var d := DropTrailingSlashes(path);
    var b := BaseName(d);
    assert forall i :: 0 <= i < |b| ==> b[i] == path[|d| - |b| + i];
    match LastIndex(b, '.')
    case None => ""
    case Some(d) => if d == 0 || b == ".." then "" else b[d..]
  }

  /** For a name `stem.ext` the extension is `.ext`, however many dots the stem holds. */
  lemma ExtNameOfName(stem: string, ext: string)
    requires stem != "" && '/' !in stem && '.' !in ext && '/' !in ext
    requires stem != "."
    ensures ExtName(stem + "." + ext) == "." + ext
  {
    var path := stem + "." + ext;
    assert path[|path| - 1] != '/' by {
      if ext == "" { assert path[|path| - 1] == '.'; } else { assert path[|path| - 1] == ext[|ext| - 1]; }
    }
    assert '/' !in path by {
      forall k | 0 <= k < |path| ensures path[k] != '/' {
        if k < |stem| { assert path[k] == stem[k]; }
        else if k > |stem| { assert path[k] == ext[k - |stem| - 1]; }
      }
    }
    assert path[|stem|] == '.';
    assert forall k :: |stem| < k < |path| ==> path[k] == ext[k - |stem| - 1];
    assert LastIndex(path, '.') == Some(|stem|);
    assert path != ".." by {
      if |path| == 2 {
        assert |stem| == 1;
        assert stem == [path[0]];
      }
    }
    assert path[|stem|..] == "." + ext;
  }

  /** `fileFilter`: accept exactly when the mimetype as sent and the lower-cased extension
      both mention one of the four image words. A file refused here is rejected with an
      error and never reaches the handler. */
  function FileFilter(mimetype: string, originalname: string): (accepted: bool)
    ensures accepted <==> MentionsImageType(mimetype) && MentionsImageType(Lower(ExtName(originalname)))
  {
    TestMeansMention(mimetype);
    TestMeansMention(Lower(ExtName(originalname)));
    TestFrom(mimetype, 0) && TestFrom(Lower(ExtName(originalname)), 0)
  }

  /** The extension is lower-cased: the case of its letters never changes the decision. */
  lemma ExtensionCaseIgnored(mimetype: string, stem: string, ext: string)
    requires stem != "" && stem != "." && '/' !in stem && '.' !in ext && '/' !in ext
    ensures FileFilter(mimetype, stem + "." + ext) == FileFilter(mimetype, stem + "." + Lower(ext))
  {
    LowerKeepsPunctuation(ext);
    ExtNameOfName(stem, ext);
    ExtNameOfName(stem, Lower(ext));
    LowerAppend(".", ext);
    LowerAppend(".", Lower(ext));
    LowerIsLower(ext);
    assert Lower(".") == ".";
  }

  /** A word that starts with a lower-case letter never occurs in a string that has none. */
  lemma LowerWordAbsent(s: string, w: string)
    requires w != "" && 'a' <= w[0] <= 'z'
    requires forall i :: 0 <= i < |s| ==> !('a' <= s[i] <= 'z')
    ensures !Contains(s, w)
  {
    forall i: nat | i <= |s| ensures !OccursAt(s, w, i) {
      if i + |w| <= |s| { assert s[i..i + |w|][0] == s[i]; }
    }
  }

  /** The mimetype is not lower-cased: one without any lower-case letter (`IMAGE/PNG`) is
      refused whatever the file is called. */
  lemma UpperCaseMimetypeRefused(mimetype: string, originalname: string)
    requires forall i :: 0 <= i < |mimetype| ==> !('a' <= mimetype[i] <= 'z')
    ensures !FileFilter(mimetype, originalname)
  {
    LowerWordAbsent(mimetype, "jpeg");
    LowerWordAbsent(mimetype, "jpg");
    LowerWordAbsent(mimetype, "png");
    LowerWordAbsent(mimetype, "jfif");
  }

  /** A word between any two strings is contained in the result. */
  lemma ContainsMiddle(a: string, w: string, b: string)
    ensures Contains(a + w + b, w)
  {
    assert OccursAt(a + w + b, w, |a|) by {
      assert (a + w + b)[|a|..|a| + |w|] == w;
    }
  }

  /** Lower-casing `.e1png e2` keeps the `png` in the middle. */
  lemma LoweredExtensionMentionsPng(e1: string, e2: string)
    ensures MentionsImageType(Lower("." + e1 + "png" + e2))
  {
    LowerAppend("." + e1 + "png", e2);
    LowerAppend("." + e1, "png");
    assert Lower("png") == "png";
    ContainsMiddle(Lower("." + e1), "png", Lower(e2));
  }

  /** For a name `stem.ext` the decision rests on the mimetype and on `.ext` lower-cased. */
  lemma FilterOnName(mimetype: string, stem: string, ext: string)
    requires stem != "" && stem != "." && '/' !in stem && '.' !in ext && '/' !in ext
    ensures FileFilter(mimetype, stem + "." + ext)
      <==> MentionsImageType(mimetype) && MentionsImageType(Lower("." + ext))
  {
    ExtNameOfName(stem, ext);
  }

  /** The match is unanchored: an image word anywhere in the mimetype and anywhere in the
      extension is enough. */
  lemma MatchIsUnanchored(m1: string, m2: string, stem: string, e1: string, e2: string)
    requires stem != "" && stem != "." && '/' !in stem
    requires '.' !in e1 + "png" + e2 && '/' !in e1 + "png" + e2
    ensures FileFilter(m1 + "jpeg" + m2, stem + "." + (e1 + "png" + e2))
  {
    FilterOnName(m1 + "jpeg" + m2, stem, e1 + "png" + e2);
    assert "." + (e1 + "png" + e2) == "." + e1 + "png" + e2;
    LoweredExtensionMentionsPng(e1, e2);
    ContainsMiddle(m1, "jpeg", m2);
  }
}
