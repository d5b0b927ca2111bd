/**
 * The output file names of the single-image command line: the grayscale
 * result is saved to `output.replace('.', '_grayscale.')` and the binary
 * result to `output.replace('.', '_binary.')`. Python's `str.replace`
 * rewrites EVERY dot, not only the one before the extension.
 */
module OutputPaths {
  import opened Arithmetic
  import opened Sequences

  /**
   * Python's `s.replace(pat, repl)` for a non-empty pattern: scanning from
   * the left, each occurrence of `pat` that does not overlap an earlier one
   * becomes `repl`; every other character is kept in place.
   */
  function Replace(s: string, pat: string, repl: string): string
    requires |pat| > 0
    decreases |s|
  {
    if |s| == 0 then s
    else if |pat| <= |s| && s[..|pat|] == pat then repl + Replace(s[|pat|..], pat, repl)
    else [s[0]] + Replace(s[1..], pat, repl)
  }

  /** The path the grayscale buffer is saved to. */
  function GrayscalePath(output: string): string {
    Replace(output, ".", "_grayscale.")
  }

  /** The path the binary buffer is saved to. */
  function BinaryPath(output: string): string {
    Replace(output, ".", "_binary.")
  }

  /** One step of the dot rewrite, seen on the first character. */
  lemma DotStep(s: string, repl: string)
    requires |s| > 0
    ensures s[0] == '.' ==> Replace(s, ".", repl) == repl + Replace(s[1..], ".", repl)
    ensures s[0] != '.' ==> Replace(s, ".", repl) == [s[0]] + Replace(s[1..], ".", repl)
  {
    assert s[..1] == [s[0]];
  }

  /** Rewriting each dot as `tag + "."`, where the tag holds no dot, keeps the number of dots. */
  lemma {:induction false} TaggedDots(s: string, tag: string)
    requires '.' !in tag
    ensures Occurrences(Replace(s, ".", tag + "."), '.') == Occurrences(s, '.')
  {
    if s != [] {
      DotStep(s, tag + ".");
      TaggedDots(s[1..], tag);
      var rest := Replace(s[1..], ".", tag + ".");
      if s[0] == '.' {
        OccurrencesAppend(tag + ".", rest, '.');
        OccurrencesAppend(tag, ".", '.');
        AbsentNotCounted(tag, '.');
      } else {
        OccurrencesAppend([s[0]], rest, '.');
      }
    }
  }

  /** Rewriting each dot as `tag + "."` adds |tag| characters per dot. */
  lemma {:induction false} TaggedLength(s: string, tag: string)
    ensures |Replace(s, ".", tag + ".")| == |s| + |tag| * Occurrences(s, '.')
  {
    if s != [] {
      DotStep(s, tag + ".");
      TaggedLength(s[1..], tag);
      if s[0] == '.' {
        MulAdd(|tag|, 1, Occurrences(s[1..], '.'));
      }
    }
  }

  /** A string without dots is left as it is, whatever replaces the dots. */
  lemma {:induction false} NoDotUnchanged(s: string, repl: string)
    requires '.' !in s
    ensures Replace(s, ".", repl) == s
  {
    if s != [] {
      DotStep(s, repl);
      assert '.' !in s[1..];
      NoDotUnchanged(s[1..], repl);
    }
  }

  /** In the rewritten string every dot has at least a whole tag in front of it. */
  lemma {:induction false} DotsAfterTag(s: string, tag: string)
    requires '.' !in tag
    ensures forall k :: 0 <= k < |Replace(s, ".", tag + ".")| && Replace(s, ".", tag + ".")[k] == '.' ==> k >= |tag|
  {
    if s != [] {
      DotStep(s, tag + ".");
      DotsAfterTag(s[1..], tag);
      var r, rest := Replace(s, ".", tag + "."), Replace(s[1..], ".", tag + ".");
      forall k | 0 <= k < |r| && r[k] == '.'
        ensures k >= |tag|
      {
        if s[0] != '.' && k > 0 {
          assert r[k] == rest[k - 1];
        }
      }
    }
  }

  /**
   * Replacing every `tag + "."` of the rewritten string by a dot gives back
   * the original string: the rewrite loses nothing.
   */
  lemma {:induction false} UndoTag(s: string, tag: string)
    requires '.' !in tag
    ensures Replace(Replace(s, ".", tag + "."), tag + ".", ".") == s
  {
    var pat := tag + ".";
    if s != [] {
      DotStep(s, pat);
      UndoTag(s[1..], tag);
      var r, rest := Replace(s, ".", pat), Replace(s[1..], ".", pat);
      if s[0] == '.' {
        assert r[..|pat|] == pat && r[|pat|..] == rest;
        assert s == "." + s[1..];
      } else {
        if |pat| <= |r| && r[..|pat|] == pat {
          assert r[|tag|] == '.';
          if |tag| > 0 {
            DotsAfterTag(s[1..], tag);
          }
          assert false;
        }
        assert r[1..] == rest;
        assert s == [s[0]] + s[1..];
      }
    }
  }

  /** Python's `s.split(sep)`: the pieces between the separators, one more than there are separators. */
  function Split(s: string, sep: char): (parts: seq<string>)
    ensures |parts| == Occurrences(s, sep) + 1
    ensures forall i :: 0 <= i < |parts| ==> sep !in parts[i]
  {
    if s == [] then [""]
    else
      var rest := Split(s[1..], sep);
      if s[0] == sep then [""] + rest
      else [[s[0]] + rest[0]] + rest[1..]
  }

  /** Python's `glue.join(parts)`. */
  function Join(parts: seq<string>, glue: string): string
    requires |parts| > 0
  {
    if |parts| == 1 then parts[0] else parts[0] + glue + Join(parts[1..], glue)
  }

  /**
   * The rewrite agrees with the reference reading `repl.join(s.split('.'))`:
   * the text between the dots is kept, in order, and each dot becomes `repl`.
   */
  lemma {:induction false} ReplaceIsSplitJoin(s: string, repl: string)
    ensures Replace(s, ".", repl) == Join(Split(s, '.'), repl)
  {
    if s != [] {
      DotStep(s, repl);
      ReplaceIsSplitJoin(s[1..], repl);
      var rest := Split(s[1..], '.');
      if s[0] == '.' {
        var parts := [""] + rest;
        assert Split(s, '.') == parts;
        assert parts[1..] == rest;
        assert Join(parts, repl) == "" + repl + Join(rest, repl);
      } else {
        var parts := [[s[0]] + rest[0]] + rest[1..];
        assert Split(s, '.') == parts;
        if |rest| == 1 {
          assert Join(parts, repl) == [s[0]] + rest[0];
        } else {
          assert parts[1..] == rest[1..];
          assert Join(parts, repl) == ([s[0]] + rest[0]) + repl + Join(rest[1..], repl);
          assert Join(rest, repl) == rest[0] + repl + Join(rest[1..], repl);
        }
      }
    }
  }

  /**
   * The grayscale path is the output path with 10 more characters per dot
   * and as many dots; replacing each "_grayscale." by "." recovers it.
   */
  lemma GrayscalePathProperties(output: string)
    ensures |GrayscalePath(output)| == |output| + 10 * Occurrences(output, '.')
    ensures Occurrences(GrayscalePath(output), '.') == Occurrences(output, '.')
    ensures Replace(GrayscalePath(output), "_grayscale.", ".") == output
  {
    assert "_grayscale" + "." == "_grayscale.";
    assert '.' !in "_grayscale";
    TaggedLength(output, "_grayscale");
    TaggedDots(output, "_grayscale");
    UndoTag(output, "_grayscale");
  }

  /**
   * The binary path is the output path with 7 more characters per dot and
   * as many dots; replacing each "_binary." by "." recovers it.
   */
  lemma BinaryPathProperties(output: string)
    ensures |BinaryPath(output)| == |output| + 7 * Occurrences(output, '.')
    ensures Occurrences(BinaryPath(output), '.') == Occurrences(output, '.')
    ensures Replace(BinaryPath(output), "_binary.", ".") == output
  {
    assert "_binary" + "." == "_binary.";
    assert '.' !in "_binary";
    TaggedLength(output, "_binary");
    TaggedDots(output, "_binary");
    UndoTag(output, "_binary");
  }

  /**
   * Both saves target the same path exactly when the output path has no
   * dot: then both rewrites leave it unchanged.
   */
  lemma SamePathIffNoDot(output: string)
    ensures GrayscalePath(output) == BinaryPath(output) <==> '.' !in output
    ensures '.' !in output ==> GrayscalePath(output) == output && BinaryPath(output) == output
  {
    GrayscalePathProperties(output);
    BinaryPathProperties(output);
    if '.' !in output {
      NoDotUnchanged(output, "_grayscale.");
      NoDotUnchanged(output, "_binary.");
    } else {
      var k :| 0 <= k < |output| && output[k] == '.';
      PresentCounted(output, '.', k);
    }
  }

  /**
   * A dot in a directory name is rewritten too: "./out.png" becomes
   * "_grayscale./out_grayscale.png", inside a directory named "_grayscale.".
   */
  lemma DotInDirectory()
    ensures GrayscalePath("./out.png") == "_grayscale./out_grayscale.png"
    ensures BinaryPath("./out.png") == "_binary./out_binary.png"
  {
    var path, name, ext := "./out.png", "/out", "png";
    assert path == "" + "." + name + "." + ext;
    ExampleGrayscale(path, name, ext);
    ExampleBinary(path, name, ext);
  }

  /** The grayscale half of `DotInDirectory`, on the sample split at its dots. */
  lemma ExampleGrayscale(path: string, name: string, ext: string)
    requires path == "" + "." + name + "." + ext && name == "/out" && ext == "png"
    ensures GrayscalePath(path) == "_grayscale./out_grayscale.png"
  {
    TwoDots("", name, ext, "_grayscale.");
    var r := "" + "_grayscale." + name + "_grayscale." + ext;
    assert r == "_grayscale./out_grayscale.png";
  }

  /** The binary half of `DotInDirectory`. */
  lemma ExampleBinary(path: string, name: string, ext: string)
    requires path == "" + "." + name + "." + ext && name == "/out" && ext == "png"
    ensures BinaryPath(path) == "_binary./out_binary.png"
  {
    TwoDots("", name, ext, "_binary.");
    var r := "" + "_binary." + name + "_binary." + ext;
    assert r == "_binary./out_binary.png";
  }

  /** A path with exactly two dots gets the replacement twice. */
  lemma TwoDots(a: string, b: string, c: string, repl: string)
    requires '.' !in a && '.' !in b && '.' !in c
    ensures Replace(a + "." + b + "." + c, ".", repl) == a + repl + b + repl + c
  {
    var tail := b + "." + c;
    assert a + "." + b + "." + c == a + "." + tail;
    FirstDot(a, tail, repl);
    FirstDot(b, c, repl);
    NoDotUnchanged(c, repl);
  }

  /** Up to its first dot a path is copied; that dot becomes the replacement. */
  lemma FirstDot(a: string, rest: string, repl: string)
    requires '.' !in a
    ensures Replace(a + "." + rest, ".", repl) == a + repl + Replace(rest, ".", repl)
  {
    var fromDot := "." + rest;
    assert a + "." + rest == a + fromDot;
    NoDotPrefix(a, fromDot, repl);
    DotStep(fromDot, repl);
    assert fromDot[1..] == rest;
  }

  /** A dot-free prefix is copied as it is. */
  lemma {:induction false} NoDotPrefix(a: string, b: string, repl: string)
    requires '.' !in a
    ensures Replace(a + b, ".", repl) == a + Replace(b, ".", repl)
  {
    if a == [] {
      assert a + b == b;
    } else {
      DotStep(a + b, repl);
      assert (a + b)[1..] == a[1..] + b;
      assert '.' !in a[1..];
      NoDotPrefix(a[1..], b, repl);
    }
  }
}
