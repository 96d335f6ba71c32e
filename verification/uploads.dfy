/**
 * The upload filename check of the student portal: a file may be uploaded
 * when its name has an extension, and the text after its last '.',
 * lower-cased, is one of the allowed extensions.
 */
module Uploads {
  import opened Text

  /** The extension allow-list. */
  const AllowedExtensions: set<string> := {"pdf", "docx", "pptx", "xlsx", "csv"}

  /** `f.rsplit(".", 1)[1]`: the text after the last '.' of `f`. */
  function AfterLastDot(f: string): (r: string)
    requires '.' in f
    ensures |r| < |f| && r == f[|f| - |r|..]
    ensures f[|f| - |r| - 1] == '.'
    ensures '.' !in r
  {
    if f[|f| - 1] == '.' then []
    else
      var r := AfterLastDot(f[..|f| - 1]) + [f[|f| - 1]];
      assert f[..|f| - 1][|f| - |r|..] == f[|f| - |r|..|f| - 1];
      r
  }

  /** `allowed(filename)`. */
  predicate Allowed(f: string)
  {
    '.' in f && Lower(AfterLastDot(f)) in AllowedExtensions
  }

  /** The same rule stated without `rsplit`: some '.' has no '.' after it and an allowed extension after it. */
  ghost predicate HasAllowedExtension(f: string)
  {
    exists i :: 0 <= i < |f| && f[i] == '.' && '.' !in f[i + 1..] && Lower(f[i + 1..]) in AllowedExtensions
  }

  /** Only one '.' of a string has no '.' after it. */
  lemma LastDotUnique(f: string, i: nat, j: nat)
    requires i < |f| && j < |f| && f[i] == '.' && f[j] == '.'
    requires '.' !in f[i + 1..] && '.' !in f[j + 1..]
    ensures i == j
  {
  }

  /** `allowed` accepts exactly the names with an allowed extension after their last '.'. */
  lemma {:induction false} AllowedIff(f: string)
    ensures Allowed(f) <==> HasAllowedExtension(f)
  {
    if '.' in f {
      var ext := AfterLastDot(f);
      var j := |f| - |ext| - 1;
      assert f[j + 1..] == ext;
      assert Allowed(f) ==> HasAllowedExtension(f) by {
        if Allowed(f) {
          assert f[j] == '.' && '.' !in f[j + 1..] && Lower(f[j + 1..]) in AllowedExtensions;
        }
      }
      assert HasAllowedExtension(f) ==> Allowed(f) by {
        if HasAllowedExtension(f) {
          var i :| 0 <= i < |f| && f[i] == '.' && '.' !in f[i + 1..] && Lower(f[i + 1..]) in AllowedExtensions;
          LastDotUnique(f, i, j);
        }
      }
    }
  }

  /** Lower-casing keeps every '.' where it is, so it commutes with taking the extension. */
  lemma {:induction false} AfterLastDotLower(f: string)
    requires '.' in f
    ensures '.' in Lower(f)
    ensures AfterLastDot(Lower(f)) == Lower(AfterLastDot(f))
  {
    var n := |f|;
    var last := f[n - 1];
    var p := f[..n - 1];
    assert f == p + [last];
    LowerAppend(p, last);
    if last == '.' {
      assert Lower(f)[n - 1] == '.';
      assert Lower(AfterLastDot(f)) == [];
    } else {
      var k :| 0 <= k < n && f[k] == '.';
      assert p[k] == '.';
      AfterLastDotLower(p);
      LowerAppend(AfterLastDot(p), last);
      assert (Lower(p) + [LowerChar(last)])[..n - 1] == Lower(p);
    }
  }

  /** The check ignores the case of ASCII letters in the whole name. */
  lemma AllowedIgnoresCase(f: string)
    ensures Allowed(f) <==> Allowed(Lower(f))
  {
    if '.' in f {
      AfterLastDotLower(f);
      LowerOfLower(Lower(AfterLastDot(f)));
    } else {
      assert forall k :: 0 <= k < |f| ==> Lower(f)[k] != '.';
    }
  }

  /** An upper-case extension is accepted. */
  lemma UpperCaseExtensionAccepted()
    ensures Allowed("x.PDF")
  {
    assert AfterLastDot("x.PDF") == "PDF";
    assert Lower("PDF") == "pdf";
  }

  /** Only the text after the last '.' counts: a double extension ending in another one is refused. */
  lemma DoubleExtensionRefused()
    ensures !Allowed("x.pdf.exe")
  {
    assert AfterLastDot("x.pdf.exe") == "exe";
    assert Lower("exe") == "exe";
  }

  /** A name without a '.' is refused, even when it spells an allowed extension. */
  lemma BareExtensionRefused()
    ensures !Allowed("pdf")
  {
    assert "pdf"[0] != '.' && "pdf"[1] != '.' && "pdf"[2] != '.';
  }
}
