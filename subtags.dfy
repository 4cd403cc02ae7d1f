/**
 * The first phase of UnicodeLocaleIDToLocaleChunks: cutting the identifier
 * into subtags at every '-' or '_'.
 */
module UnicodeSubtags {

  import opened Wrappers
  import opened CStrings
  import opened Locale

  predicate IsSubtagSeparator(c: char) {
    c == '-' || c == '_'
  }

  predicate IsTagChar(c: char) {
    IsAlnum(c) || IsSubtagSeparator(c)
  }

  predicate AllTagChars(s: string) {
    forall k | 0 <= k < |s| :: IsTagChar(s[k])
  }

  predicate NoSeparator(t: string) {
    forall k | 0 <= k < |t| :: !IsSubtagSeparator(t[k])
  }

  /** The pieces of s between separators, empty ones included, read one character at a time. */
  function Split(s: string): (pieces: seq<string>)
    ensures |pieces| > 0
    ensures forall i | 0 <= i < |pieces| :: NoSeparator(pieces[i])
    decreases |s|
  {
    if |s| == 0 then [""]
    else
      var init := Split(s[..|s| - 1]);
      var c := s[|s| - 1];
      if IsSubtagSeparator(c) then init + [""]
      else init[..|init| - 1] + [init[|init| - 1] + [c]]
  }

  /**
   * The subtags of a non-empty identifier made of letters, digits and
   * separators only, with no empty subtag; None otherwise.
   */
  function Subtags(s: string): (r: Option<seq<string>>)
    ensures r.Some? ==> |r.value| > 0 && forall t | t in r.value :: |t| > 0 && AllAlnum(t)
  {
    if |s| == 0 || !AllTagChars(s) || "" in Split(s) then None
    else
      SplitAlnum(s);
      Some(Split(s))
  }

  /** A character that is neither alphanumeric nor a separator makes the identifier invalid. */
  lemma BadCharRefused(s: string, p: nat)
    requires p < |s| && !IsTagChar(s[p])
    ensures Subtags(s) == None
  {
  }

  /** s with every '-' replaced by '_'. */
  function Underscored(s: string): (u: string) {
    seq(|s|, i requires 0 <= i < |s| => if s[i] == '-' then '_' else s[i])
  }

  /** Pieces found in a prefix are kept by the rest of the scan; only the last may still grow. */
  lemma {:induction false} SplitPrefix(s: string, q: nat)
    requires q <= |s|
    ensures |Split(s[..q])| <= |Split(s)|
    ensures Split(s[..q])[..|Split(s[..q])| - 1] == Split(s)[..|Split(s[..q])| - 1]
    decreases |s|
  {
    if q < |s| {
      var s' := s[..|s| - 1];
      assert s'[..q] == s[..q];
      SplitPrefix(s', q);
    } else {
      assert s[..q] == s;
    }
  }

  /** A leading, trailing or doubled separator makes an empty subtag, which is refused. */
  lemma EmptySubtagRejected(s: string, k: nat)
    requires k < |s| && IsSubtagSeparator(s[k])
    requires k == 0 || k + 1 == |s| || IsSubtagSeparator(s[k + 1])
    ensures Subtags(s) == None
  {
    if k == 0 {
      assert s[..0] == "";
      ClosedPieceKept(s, 0, "");
    } else if k + 1 == |s| {
      SplitExtendSeparator(s, k);
      assert s[..k + 1] == s;
    } else {
      SplitExtendSeparator(s, k);
      assert Split(s[..k + 1])[|Split(s[..k])|] == "";
      ClosedPieceKept(s, k + 1, "");
    }
  }

  lemma {:induction false} SplitJoin(s: string)
    ensures Joined(Split(s), '_') == Underscored(s)
    decreases |s|
  {
    if |s| > 0 {
      var s' := s[..|s| - 1];
      var c := s[|s| - 1];
      var init := Split(s');
      var m := |init|;
      SplitJoin(s');
      assert Underscored(s) == Underscored(s') + [if c == '-' then '_' else c];
      if IsSubtagSeparator(c) {
        JoinedSnoc(init, "", '_');
      } else if m == 1 {
        assert Split(s) == [init[0] + [c]];
        assert Joined(Split(s), '_') == init[0] + [c] + Prefixed([], '_');
      } else {
        var x := init[m - 1];
        assert init == init[..m - 1] + [x];
        JoinedSnoc(init[..m - 1], x, '_');
        JoinedSnoc(init[..m - 1], x + [c], '_');
      }
    }
  }

  lemma {:induction false} SplitNoSeparator(t: string)
    requires NoSeparator(t)
    ensures Split(t) == [t]
    decreases |t|
  {
    if |t| > 0 {
      SplitNoSeparator(t[..|t| - 1]);
      assert t[..|t| - 1] + [t[|t| - 1]] == t;
    }
  }

  lemma {:induction false} SplitAppend(x: string, sep: char, t: string)
    requires IsSubtagSeparator(sep) && NoSeparator(t)
    ensures Split(x + [sep] + t) == Split(x) + [t]
    decreases |t|
  {
    if |t| == 0 {
      assert (x + [sep] + t)[..|x|] == x;
    } else {
      var t' := t[..|t| - 1];
      SplitAppend(x, sep, t');
      assert (x + [sep] + t)[..|x + [sep] + t| - 1] == x + [sep] + t';
      assert t' + [t[|t| - 1]] == t;
    }
  }

  /** Joining subtags with either separator and splitting again gives the same subtags back. */
  lemma {:induction false} SubtagsOfJoined(tags: seq<string>, sep: char)
    requires |tags| > 0 && IsSubtagSeparator(sep)
    requires forall t | t in tags :: |t| > 0 && AllAlnum(t)
    ensures Subtags(Joined(tags, sep)) == Some(tags)
    decreases |tags|
  {
    var last := tags[|tags| - 1];
    assert last in tags;
    AlnumPiece(last);
    if |tags| == 1 {
      assert tags == [last] && tags[1..] == [];
      assert Joined(tags, sep) == last;
      SplitNoSeparator(last);
    } else {
      var init := tags[..|tags| - 1];
      assert tags == init + [last];
      SubtagsOfJoined(init, sep);
      JoinedSnoc(init, last, sep);
      var x := Joined(init, sep);
      SplitAppend(x, sep, last);
      TagCharsJoin(x, sep, last);
      assert "" !in init + [last];
    }
  }

  /** A subtag of letters and digits holds no separator and only subtag characters. */
  lemma AlnumPiece(t: string)
    requires AllAlnum(t)
    ensures NoSeparator(t) && AllTagChars(t)
  {
    forall k | 0 <= k < |t| ensures !IsSubtagSeparator(t[k]) && IsTagChar(t[k]) {
      assert IsAlnum(t[k]);
    }
  }

  lemma TagCharsJoin(x: string, sep: char, t: string)
    requires AllTagChars(x) && IsSubtagSeparator(sep) && AllTagChars(t)
    ensures AllTagChars(x + [sep] + t)
  {
    var s := x + [sep] + t;
    forall k | 0 <= k < |s| ensures IsTagChar(s[k]) {
      if k < |x| {
        assert s[k] == x[k];
      } else if k > |x| {
        assert s[k] == t[k - |x| - 1];
      }
    }
  }

  lemma {:induction false} PrefixedLength(vs: seq<string>, sep: char)
    requires forall v | v in vs :: |v| > 0
    ensures |Prefixed(vs, sep)| >= 2 * |vs|
    decreases |vs|
  {
    if |vs| > 0 {
      PrefixedLength(vs[..|vs| - 1], sep);
    }
  }

  /** The C code sizes its subtag arrays at 1 + strlen/2 entries: that is enough. */
  lemma SubtagCountBound(s: string, tags: seq<string>)
    requires Subtags(s) == Some(tags)
    ensures 2 * |tags| <= |s| + 1
    ensures |tags| <= 1 + |s| / 2
  {
    SplitJoin(s);
    assert tags[0] in tags;
    PrefixedLength(tags[1..], '_');
    assert |Joined(tags, '_')| == |s|;
  }

  /** Over letters, digits and separators, every piece is alphanumeric. */
  lemma {:induction false} SplitAlnum(s: string)
    requires AllTagChars(s)
    ensures forall t | t in Split(s) :: AllAlnum(t)
    decreases |s|
  {
    if |s| > 0 {
      var s' := s[..|s| - 1];
      var c := s[|s| - 1];
      var init := Split(s');
      assert AllTagChars(s') by {
        forall k | 0 <= k < |s'| ensures IsTagChar(s'[k]) {
          assert s'[k] == s[k];
        }
      }
      SplitAlnum(s');
      if !IsSubtagSeparator(c) {
        var x := init[|init| - 1];
        assert x in init;
        assert IsTagChar(s[|s| - 1]);
        assert AllAlnum(x + [c]) by {
          forall k | 0 <= k < |x + [c]| ensures IsAlnum((x + [c])[k]) {
            if k < |x| {
              assert (x + [c])[k] == x[k];
            }
          }
        }
        forall t | t in Split(s) ensures AllAlnum(t) {
          if t != x + [c] {
            assert t in init[..|init| - 1];
          }
        }
      }
    }
  }

  /** One more letter or digit grows the last piece. */
  lemma SplitExtendChar(s: string, p: nat)
    requires p < |s| && !IsSubtagSeparator(s[p])
    ensures var a := Split(s[..p]); Split(s[..p + 1]) == a[..|a| - 1] + [a[|a| - 1] + [s[p]]]
  {
    assert s[..p + 1][..p] == s[..p];
  }

  /** A separator closes the last piece and opens an empty one. */
  lemma SplitExtendSeparator(s: string, p: nat)
    requires p < |s| && IsSubtagSeparator(s[p])
    ensures Split(s[..p + 1]) == Split(s[..p]) + [""]
  {
    assert s[..p + 1][..p] == s[..p];
  }

  /** A piece closed by a separator stays a piece of the whole string. */
  lemma ClosedPieceKept(s: string, p: nat, t: string)
    requires p < |s| && IsSubtagSeparator(s[p])
    requires t in Split(s[..p])
    ensures t in Split(s)
  {
    SplitExtendSeparator(s, p);
    SplitPrefix(s, p + 1);
    var a := Split(s[..p]);
    var i :| 0 <= i < |a| && a[i] == t;
    assert Split(s[..p + 1])[i] == t;
    assert Split(s)[i] == t;
  }
}

