/**
  The extension check of the upload widget: the file name is split on ".",
  the last piece is taken and lower-cased, and the file is accepted when that
  piece is "csv" or "xlsx".
 */
module FileName {

  /** Joins pieces with "." between them (the inverse of Split). */
  function Join(pieces: seq<string>): string
  {
    if |pieces| == 0 then ""
    else if |pieces| == 1 then pieces[0]
    else pieces[0] + "." + Join(pieces[1..])
  }

  /** Splitting on "." as JavaScript's `split(".")` does: a string with k dots
      gives k + 1 pieces, empty pieces included. */
  function Split(s: string): (pieces: seq<string>)
    ensures |pieces| >= 1
    ensures forall i :: 0 <= i < |pieces| ==> '.' !in pieces[i]
    ensures Join(pieces) == s
  {
    if s == [] then [[]]
    else
      var rest := Split(s[1..]);
      if s[0] == '.' then [[]] + rest
      else [[s[0]] + rest[0]] + rest[1..]
  }

  /** Splitting what Join produced gives the pieces back, provided no piece
      holds a dot. */
  lemma {:induction false} SplitJoin(pieces: seq<string>)
    requires |pieces| >= 1
    requires forall i :: 0 <= i < |pieces| ==> '.' !in pieces[i]
    ensures Split(Join(pieces)) == pieces
  {
    if |pieces| == 1 {
      SplitDotFree(pieces[0]);
    } else {
      var tail := pieces[1..];
      SplitJoin(tail);
      SplitPrefix(pieces[0], Join(tail));
    }
  }

  /** A string without dots is one piece. */
  lemma SplitDotFree(s: string)
    requires '.' !in s
    ensures Split(s) == [s]
  {
  }

  /** Splitting "p.t" where p has no dot puts p in front of the pieces of t. */
  lemma {:induction false} SplitPrefix(p: string, t: string)
    requires '.' !in p
    ensures Split(p + "." + t) == [p] + Split(t)
  {
    if p == [] {
      assert p + "." + t == "." + t;
      assert ("." + t)[1..] == t;
    } else {
      assert '.' !in p[1..] by {
        forall k | 0 <= k < |p[1..]| ensures p[1..][k] != '.' {
          assert p[1..][k] == p[k + 1];
        }
      }
      SplitPrefix(p[1..], t);
      assert (p + "." + t)[1..] == p[1..] + "." + t;
      assert [p[0]] + p[1..] == p;
    }
  }

  /** The last element of a non-empty sequence (what `pop()` returns). */
  function Last<T>(xs: seq<T>): T
    requires |xs| >= 1
  {
    xs[|xs| - 1]
  }

  /** Reference definition: the text after the last dot, or the whole string
      when it has no dot. */
  function AfterLastDot(s: string): (e: string)
    ensures '.' !in e
    ensures |e| <= |s| && e == s[|s| - |e|..]
    ensures |e| < |s| ==> s[|s| - |e| - 1] == '.'
  {
    if s == [] then ""
    else if s[|s| - 1] == '.' then ""
    else AfterLastDot(s[..|s| - 1]) + [s[|s| - 1]]
  }

  /** The suffix described by AfterLastDot's contract is the only one: the
      text behind a dot that is followed by no other dot. */
  lemma AfterLastDotAt(s: string, k: int)
    requires 0 <= k < |s| && s[k] == '.'
    requires '.' !in s[k + 1..]
    ensures AfterLastDot(s) == s[k + 1..]
  {
  }

  /** A string without dots is its own last piece. */
  lemma AfterLastDotWhole(s: string)
    requires '.' !in s
    ensures AfterLastDot(s) == s
  {
  }

  /** `split(".").pop()` is exactly the text after the last dot. */
  lemma {:induction false} LastPieceIsAfterLastDot(s: string)
    ensures Last(Split(s)) == AfterLastDot(s)
  {
    var pieces := Split(s);
    var p := Last(pieces);
    if |pieces| == 1 {
      AfterLastDotWhole(s);
    } else {
      var init := pieces[..|pieces| - 1];
      JoinLast(init, p);
      assert init + [p] == pieces;
      var k := |Join(init)|;
      assert s == Join(init) + "." + p;
      assert s[k + 1..] == p;
      AfterLastDotAt(s, k);
    }
  }

  /** Joining with one more piece appends "." and that piece. */
  lemma {:induction false} JoinLast(init: seq<string>, p: string)
    requires |init| >= 1
    ensures Join(init + [p]) == Join(init) + "." + p
  {
    if |init| == 1 {
      assert (init + [p])[1..] == [p];
    } else {
      JoinLast(init[1..], p);
      assert (init + [p])[1..] == init[1..] + [p];
    }
  }

  predicate IsUpper(c: char)
  {
    'A' <= c <= 'Z'
  }

  /** ASCII lower-casing of one character. */
  function LowerChar(c: char): char
  {
    if IsUpper(c) then (c as int - 'A' as int + 'a' as int) as char else c
  }

  /** `toLowerCase()`, restricted to ASCII letters. */
  function ToLower(s: string): (r: string)
    ensures |r| == |s|
    ensures forall i :: 0 <= i < |r| ==> !IsUpper(r[i])
    ensures forall i :: 0 <= i < |s| && !IsUpper(s[i]) ==> r[i] == s[i]
    ensures forall i :: 0 <= i < |s| && IsUpper(s[i]) ==> r[i] as int == s[i] as int + 32
  {
    seq(|s|, i requires 0 <= i < |s| => LowerChar(s[i]))
  }

  /** The file type the widget compares: the last piece of the name, lower-cased. */
  function Extension(name: string): (ext: string)
    ensures '.' !in ext
    ensures |ext| <= |name|
    ensures ext == ToLower(name[|name| - |ext|..])
    ensures |ext| < |name| ==> name[|name| - |ext| - 1] == '.'
  {
    LastPieceIsAfterLastDot(name);
    var piece := Last(Split(name));
    var r := ToLower(piece);
    assert '.' !in r by {
      forall i | 0 <= i < |r| ensures r[i] != '.' {
        assert piece[i] != '.';
      }
    }
    r
  }

  const AcceptedExtensions: set<string> := {"csv", "xlsx"}

  /** The widget's acceptance rule. */
  predicate IsAcceptedName(name: string)
  {
    Extension(name) in AcceptedExtensions
  }

  /** `s` equals the lower-case word `word` up to ASCII case. */
  predicate MatchesIgnoreCase(s: string, word: string)
  {
    |s| == |word| && forall i :: 0 <= i < |s| ==> LowerChar(s[i]) == word[i]
  }

  /** Reference rule: the name is the word itself, or ends in "." and the word,
      up to case, for the word "csv" or "xlsx". */
  predicate EndsWithAcceptedType(name: string)
  {
    exists word :: word in AcceptedExtensions && HasTypeSuffix(name, word)
  }

  predicate HasTypeSuffix(name: string, word: string)
  {
    || MatchesIgnoreCase(name, word)
    || (|name| > |word| && name[|name| - |word| - 1] == '.' && MatchesIgnoreCase(name[|name| - |word|..], word))
  }

  /** A lower-case word without dots, matched by `s` up to case, is what
      lower-casing `s` gives, and `s` then holds no dot either. */
  lemma MatchesIgnoreCaseIff(s: string, word: string)
    requires word in AcceptedExtensions
    ensures MatchesIgnoreCase(s, word) <==> ToLower(s) == word
    ensures MatchesIgnoreCase(s, word) ==> '.' !in s
  {
    if MatchesIgnoreCase(s, word) {
      assert ToLower(s) == word;
      forall i | 0 <= i < |s| ensures s[i] != '.' {
        assert LowerChar(s[i]) == word[i];
      }
    }
    if ToLower(s) == word {
      forall i | 0 <= i < |s| ensures LowerChar(s[i]) == word[i] {
        assert ToLower(s)[i] == LowerChar(s[i]);
      }
    }
  }

  /** A name is accepted exactly when it is "csv" or "xlsx", or ends in ".csv"
      or ".xlsx", ignoring case. */
  lemma AcceptedIffEndsWithType(name: string)
    ensures IsAcceptedName(name) <==> EndsWithAcceptedType(name)
  {
    var ext := Extension(name);
    var raw := name[|name| - |ext|..];
    if IsAcceptedName(name) {
      MatchesIgnoreCaseIff(raw, ext);
      assert HasTypeSuffix(name, ext) by {
        if |ext| == |name| {
          assert raw == name;
        }
      }
    }
    if EndsWithAcceptedType(name) {
      var word :| word in AcceptedExtensions && HasTypeSuffix(name, word);
      if MatchesIgnoreCase(name, word) {
        MatchesIgnoreCaseIff(name, word);
        LastPieceIsAfterLastDot(name);
        AfterLastDotWhole(name);
        assert name[|name| - |name|..] == name;
      } else {
        var suffix := name[|name| - |word|..];
        MatchesIgnoreCaseIff(suffix, word);
        assert '.' !in name[|name| - |word| - 1 + 1..] by {
          assert name[|name| - |word| - 1 + 1..] == suffix;
        }
        LastPieceIsAfterLastDot(name);
        AfterLastDotAt(name, |name| - |word| - 1);
      }
    }
  }

  /** Extension of a name whose last dot is at `k`. */
  lemma ExtensionAt(name: string, k: int)
    requires 0 <= k < |name| && name[k] == '.'
    requires '.' !in name[k + 1..]
    ensures Extension(name) == ToLower(name[k + 1..])
  {
    LastPieceIsAfterLastDot(name);
    AfterLastDotAt(name, k);
  }

  /** Extension of a name without a dot: the whole name. */
  lemma ExtensionWhole(name: string)
    requires '.' !in name
    ensures Extension(name) == ToLower(name)
  {
    LastPieceIsAfterLastDot(name);
    AfterLastDotWhole(name);
  }

  /** Whatever comes before it, a dot-free last piece decides the type. */
  lemma ExtensionAfterStem(stem: string, t: string)
    requires '.' !in t
    ensures Extension(stem + "." + t) == ToLower(t)
  {
    var name := stem + "." + t;
    assert name[|stem| + 1..] == t;
    ExtensionAt(name, |stem|);
  }

  /** Upper-case letters are folded before the comparison: any "<stem>.CSV". */
  lemma AcceptsUpperCase(stem: string)
    ensures IsAcceptedName(stem + ".CSV")
  {
    var t := "CSV";
    assert ToLower(t) == "csv" by {
      var e := ToLower(t);
      assert forall i :: 0 <= i < |t| ==> IsUpper(t[i]);
      assert e[0] == 'c' && e[1] == 's' && e[2] == 'v';
    }
    assert stem + ".CSV" == stem + "." + t;
    ExtensionAfterStem(stem, t);
  }

  /** Only the text after the last dot counts: any "<stem>.xlsx", dots in the
      stem included. */
  lemma AcceptsXlsx(stem: string)
    ensures IsAcceptedName(stem + ".xlsx")
  {
    var t := "xlsx";
    assert ToLower(t) == t by {
      var e := ToLower(t);
      assert forall i :: 0 <= i < |t| ==> !IsUpper(t[i]);
      assert forall i :: 0 <= i < |t| ==> e[i] == t[i];
    }
    assert stem + ".xlsx" == stem + "." + t;
    ExtensionAfterStem(stem, t);
  }

  /** A name without a dot is judged whole: "csv" itself is accepted. */
  lemma AcceptsBareType()
    ensures Extension("csv") == "csv" && IsAcceptedName("csv")
  {
    ExtensionWhole("csv");
  }

  /** Another type is rejected: any "<stem>.pdf". */
  lemma RejectsOtherType(stem: string)
    ensures !IsAcceptedName(stem + ".pdf")
  {
    assert stem + ".pdf" == stem + "." + "pdf";
    ExtensionAfterStem(stem, "pdf");
    assert ToLower("pdf")[0] == 'p';
  }

  /** A name without a dot that is not a type is rejected. */
  lemma RejectsNoDot()
    ensures Extension("noext") == "noext" && !IsAcceptedName("noext")
  {
    ExtensionWhole("noext");
  }

  /** An accepted type followed by another piece is rejected: any
      "<stem>.csv.zip". */
  lemma RejectsInnerType(stem: string)
    ensures !IsAcceptedName(stem + ".csv.zip")
  {
    assert stem + ".csv.zip" == (stem + ".csv") + "." + "zip";
    ExtensionAfterStem(stem + ".csv", "zip");
    assert ToLower("zip")[0] == 'z';
  }

  /** A trailing dot leaves an empty type, which is rejected. */
  lemma RejectsTrailingDot(stem: string)
    ensures Extension(stem + ".") == "" && !IsAcceptedName(stem + ".")
  {
    assert stem + "." == stem + "." + "";
    ExtensionAfterStem(stem, "");
  }
}
