/**
 * The tag parser of a journal entry (`Entry.tag_list`): the `tags` column is a
 * comma-separated string; the parser splits it on `,`, strips every piece of
 * surrounding whitespace and keeps the pieces that are not empty.
 *
 * Python's `str.strip` removes every Unicode whitespace character; this model
 * fixes the set to space, tab, newline and carriage return.
 */
module Tags {

  predicate IsSpace(c: char) {
    c == ' ' || c == '\t' || c == '\n' || c == '\r'
  }

  predicate AllSpace(s: string) {
    forall i :: 0 <= i < |s| ==> IsSpace(s[i])
  }

  /** A string with no whitespace at either end: what `strip` returns. */
  predicate IsStripped(s: string) {
    s == [] || (!IsSpace(s[0]) && !IsSpace(s[|s| - 1]))
  }

  /** A tag as `tag_list` hands it out: non-empty, stripped, free of commas. */
  predicate IsTag(t: string) {
    t != [] && IsStripped(t) && ',' !in t
  }

  /** The number of commas in `s`. */
  function Commas(s: string): nat {
    if s == [] then 0 else (if s[0] == ',' then 1 else 0) + Commas(s[1..])
  }

  /** `str.lstrip`. */
  function TrimLeft(s: string): (t: string)
    ensures |t| <= |s|
    ensures t == [] || !IsSpace(t[0])
  {
    if s != [] && IsSpace(s[0]) then TrimLeft(s[1..]) else s
  }

  /** `str.rstrip`. */
  function TrimRight(s: string): (t: string)
    ensures |t| <= |s|
    ensures t == [] || !IsSpace(t[|t| - 1])
  {
    if s != [] && IsSpace(s[|s| - 1]) then TrimRight(s[..|s| - 1]) else s
  }

  /** `lstrip` drops the leading whitespace, and only that. */
  lemma {:induction false} TrimLeftSpec(s: string)
    ensures TrimLeft(s) == s[|s| - |TrimLeft(s)|..]
    ensures AllSpace(s[..|s| - |TrimLeft(s)|])
    ensures TrimLeft(s) == [] || !IsSpace(TrimLeft(s)[0])
  {
    if s != [] && IsSpace(s[0]) {
      TrimLeftSpec(s[1..]);
      var n := |s| - |TrimLeft(s)|;
      assert s[1..][n - 1..] == s[n..];
      forall k | 0 <= k < n ensures IsSpace(s[..n][k]) {
        if k > 0 { assert s[..n][k] == s[1..][..n - 1][k - 1]; }
      }
    }
  }

  /** `rstrip` drops the trailing whitespace, and only that. */
  lemma {:induction false} TrimRightSpec(s: string)
    ensures TrimRight(s) == s[..|TrimRight(s)|]
    ensures AllSpace(s[|TrimRight(s)|..])
    ensures TrimRight(s) == [] || !IsSpace(TrimRight(s)[|TrimRight(s)| - 1])
  {
    if s != [] && IsSpace(s[|s| - 1]) {
      var init := s[..|s| - 1];
      TrimRightSpec(init);
      var n := |TrimRight(s)|;
      assert init[..n] == s[..n];
      forall k | 0 <= k < |s| - n ensures IsSpace(s[n..][k]) {
        if n + k < |s| - 1 { assert s[n..][k] == init[n..][k]; }
      }
    }
  }

  /** `str.strip`: `rstrip` after `lstrip`; nothing is left at either end to strip. */
  function Strip(s: string): (t: string)
    ensures IsStripped(t) && |t| <= |s|
  {
    var l := TrimLeft(s);
    TrimLeftSpec(s);
    TrimRightSpec(l);
    assert TrimRight(l) != [] ==> TrimRight(l)[0] == l[0];
    TrimRight(l)
  }

  /** What `strip` removes is whitespace, from the two ends only. */
  lemma StripInfix(s: string)
    ensures exists i :: (0 <= i <= |s| - |Strip(s)| && Strip(s) == s[i..i + |Strip(s)|]
      && AllSpace(s[..i]) && AllSpace(s[i + |Strip(s)|..]))
  {
    var l := TrimLeft(s);
    TrimLeftSpec(s);
    TrimRightSpec(l);
    var t := Strip(s);
    var i := |s| - |l|;
    assert t == s[i..i + |t|];
    assert s[i + |t|..] == l[|t|..];
  }

  /** `strip` gives the empty string exactly when there is nothing but whitespace. */
  lemma StripEmptyIff(s: string)
    ensures Strip(s) == [] <==> AllSpace(s)
  {
    var l := TrimLeft(s);
    TrimLeftSpec(s);
    TrimRightSpec(l);
    var n := |s| - |l|;
    if Strip(s) == [] {
      // `l` starts with a non-space unless empty, and `rstrip` removed all of it
      assert l == [];
      assert s[..n] == s;
    } else {
      assert s[n] == l[0];
    }
  }

  /** A string with no whitespace at either end is left alone by `strip`. */
  lemma StripOfStripped(s: string)
    requires IsStripped(s)
    ensures Strip(s) == s
  {
    if s != [] {
      assert TrimLeft(s) == s;
    }
  }

  /** `strip` cannot introduce a comma. */
  lemma StripKeepsNoComma(s: string)
    requires ',' !in s
    ensures ',' !in Strip(s)
  {
    var l := TrimLeft(s);
    TrimLeftSpec(s);
    TrimRightSpec(l);
    var t := Strip(s);
    forall k | 0 <= k < |t| ensures t[k] != ',' {
      assert t[k] == l[k] == s[|s| - |l| + k];
    }
  }

  /** `str.split(",")`: the pieces between commas, always at least one. */
  function Split(s: string): (pieces: seq<string>)
    ensures |pieces| == Commas(s) + 1
    ensures forall i :: 0 <= i < |pieces| ==> ',' !in pieces[i]
  {
    if s == [] then [[]]
    else
      var rest := Split(s[1..]);
      if s[0] == ',' then [[]] + rest
      else [[s[0]] + rest[0]] + rest[1..]
  }

  /** `",".join(pieces)`. */
  function Join(pieces: seq<string>): (s: string)
    ensures |pieces| >= 1 ==> pieces[0] <= s
    ensures |s| + 1 >= |pieces|
  {
    if |pieces| == 0 then []
    else if |pieces| == 1 then pieces[0]
    else pieces[0] + [','] + Join(pieces[1..])
  }

  /** Strip every piece and keep the ones that are not empty, in order. */
  function Clean(pieces: seq<string>): (tags: seq<string>)
    requires forall i :: 0 <= i < |pieces| ==> ',' !in pieces[i]
    ensures |tags| <= |pieces|
    ensures forall i :: 0 <= i < |tags| ==> IsTag(tags[i])
  {
    if pieces == [] then []
    else
      var t := Strip(pieces[0]);
      StripKeepsNoComma(pieces[0]);
      (if t == [] then [] else [t]) + Clean(pieces[1..])
  }

  /**
   * `Entry.tag_list`: every element is a tag (non-empty, stripped, no comma),
   * and there are at most as many tags as comma-separated pieces.
   */
  function TagList(tags: string): (r: seq<string>)
    ensures forall i :: 0 <= i < |r| ==> IsTag(r[i])
    ensures |r| <= Commas(tags) + 1
  {
    Clean(Split(tags))
  }

  // ---------------------------------------------------------------------------
  // Splitting and joining

  lemma JoinCons(p: string, pieces: seq<string>)
    requires pieces != []
    ensures Join([p] + pieces) == p + [','] + Join(pieces)
  {
    assert ([p] + pieces)[1..] == pieces;
  }

  /** Gluing a character onto the first piece puts it in front of the joined string. */
  lemma JoinGlue(c: char, first: string, more: seq<string>)
    ensures Join([[c] + first] + more) == [c] + Join([first] + more)
  {
    if more != [] {
      JoinCons([c] + first, more);
      JoinCons(first, more);
      assert [c] + first + [','] + Join(more) == [c] + (first + [','] + Join(more));
    }
  }

  /** Joining the pieces of a split with `,` gives back the original string. */
  lemma {:induction false} JoinSplit(s: string)
    ensures Join(Split(s)) == s
  {
    if s != [] {
      var c, rest := s[0], s[1..];
      assert s == [c] + rest;
      JoinSplit(rest);
      if c == ',' {
        SplitConsComma(rest);
        JoinCons([], Split(rest));
      } else {
        var pieces := Split(rest);
        SplitCons(c, rest);
        assert pieces == [pieces[0]] + pieces[1..];
        JoinGlue(c, pieces[0], pieces[1..]);
      }
    }
  }

  /** A character other than a comma joins the first piece of the split. */
  lemma SplitCons(c: char, s: string)
    requires c != ','
    ensures Split([c] + s) == [[c] + Split(s)[0]] + Split(s)[1..]
  {
    assert ([c] + s)[1..] == s;
  }

  /** A leading comma splits off an empty first piece. */
  lemma SplitConsComma(s: string)
    ensures Split([','] + s) == [[]] + Split(s)
  {
    assert ([','] + s)[1..] == s;
  }

  /** Gluing a prefix onto the first piece commutes with appending more pieces. */
  lemma GlueFirst(c: char, left: seq<string>, right: seq<string>)
    requires left != []
    ensures [[c] + (left + right)[0]] + (left + right)[1..] == ([[c] + left[0]] + left[1..]) + right
  {
    assert (left + right)[0] == left[0];
    assert (left + right)[1..] == left[1..] + right;
  }

  lemma CommaAfterCons(c: char, rest: string, b: string)
    ensures ([c] + rest) + [','] + b == [c] + (rest + [','] + b)
  {
  }

  /** The inductive step of SplitConcat: one more character in front of `a`. */
  lemma SplitConcatStep(c: char, rest: string, b: string)
    requires Split(rest + [','] + b) == Split(rest) + Split(b)
    ensures Split([c] + rest + [','] + b) == Split([c] + rest) + Split(b)
  {
    var x := rest + [','] + b;
    CommaAfterCons(c, rest, b);
    if c == ',' {
      SplitConsComma(x);
      SplitConsComma(rest);
    } else {
      SplitCons(c, x);
      SplitCons(c, rest);
      GlueFirst(c, Split(rest), Split(b));
    }
  }

  lemma {:induction false} SplitConcat(a: string, b: string)
    ensures Split(a + [','] + b) == Split(a) + Split(b)
  {
    if a == [] {
      assert a + [','] + b == [','] + b;
      SplitConsComma(b);
      assert Split(a) == [[]];
    } else {
      assert a == [a[0]] + a[1..];
      SplitConcat(a[1..], b);
      SplitConcatStep(a[0], a[1..], b);
    }
  }

  /** Splitting a string with no comma gives that string alone. */
  lemma {:induction false} SplitNoComma(s: string)
    requires ',' !in s
    ensures Split(s) == [s]
  {
    if s != [] {
      assert ',' !in s[1..] by {
        forall k | 0 <= k < |s[1..]| ensures s[1..][k] != ',' {
          assert s[1..][k] == s[k + 1];
        }
      }
      SplitNoComma(s[1..]);
      assert s == [s[0]] + s[1..];
    }
  }

  /** Splitting comma-free pieces joined with `,` gives the pieces back. */
  lemma {:induction false} SplitJoin(pieces: seq<string>)
    requires |pieces| >= 1
    requires forall i :: 0 <= i < |pieces| ==> ',' !in pieces[i]
    ensures Split(Join(pieces)) == pieces
  {
    SplitNoComma(pieces[0]);
    if |pieces| > 1 {
      SplitJoin(pieces[1..]);
      SplitConcat(pieces[0], Join(pieces[1..]));
      assert pieces == [pieces[0]] + pieces[1..];
    }
  }

  // ---------------------------------------------------------------------------
  // The tag list

  lemma {:induction false} CleanConcat(p: seq<string>, q: seq<string>)
    requires forall i :: 0 <= i < |p| ==> ',' !in p[i]
    requires forall i :: 0 <= i < |q| ==> ',' !in q[i]
    ensures Clean(p + q) == Clean(p) + Clean(q)
  {
    if p != [] {
      assert (p + q)[0] == p[0] && (p + q)[1..] == p[1..] + q;
      CleanConcat(p[1..], q);
    } else {
      assert p + q == q;
    }
  }

  /** A string without commas yields its stripped self, or nothing when that is empty. */
  lemma TagListOfPiece(s: string)
    requires ',' !in s
    ensures TagList(s) == if Strip(s) == [] then [] else [Strip(s)]
  {
    SplitNoComma(s);
    assert Split(s)[1..] == [];
  }

  /**
   * The tags of `a,b` are the tags of `a` followed by the tags of `b`: with
   * TagListOfPiece, the tag list is exactly the stripped non-empty pieces in
   * their left-to-right order.
   */
  lemma TagListConcat(a: string, b: string)
    ensures TagList(a + [','] + b) == TagList(a) + TagList(b)
  {
    SplitConcat(a, b);
    CleanConcat(Split(a), Split(b));
  }

  /** The default `tags = ""` has no tags. */
  lemma TagListOfDefault()
    ensures TagList("") == []
  {
    assert Split("") == [""];
  }

  /** The inductive step of TagListOfJoin: one more tag in front. */
  lemma TagListOfJoinStep(first: string, more: seq<string>)
    requires IsTag(first) && more != []
    requires TagList(Join(more)) == more
    ensures TagList(Join([first] + more)) == [first] + more
  {
    JoinCons(first, more);
    TagListOfWord(first);
    TagListConcat(first, Join(more));
  }

  /** Parsing the `,`-joined tags of a list of tags gives the same list. */
  lemma {:induction false} TagListOfJoin(tags: seq<string>)
    requires forall i :: 0 <= i < |tags| ==> IsTag(tags[i])
    ensures TagList(Join(tags)) == tags
  {
    if tags == [] {
      TagListOfDefault();
    } else {
      var first, more := tags[0], tags[1..];
      assert tags == [first] + more;
      if more == [] {
        TagListOfWord(first);
      } else {
        forall i | 0 <= i < |more| ensures IsTag(more[i]) {
          assert more[i] == tags[i + 1];
        }
        TagListOfJoin(more);
        TagListOfJoinStep(first, more);
      }
    }
  }

  /** Re-parsing the `,`-joined tag list is idempotent. */
  lemma TagListIdempotent(s: string)
    ensures TagList(Join(TagList(s))) == TagList(s)
  {
    TagListOfJoin(TagList(s));
  }

  lemma StripConsSpace(c: char, s: string)
    requires IsSpace(c)
    ensures Strip([c] + s) == Strip(s)
  {
    assert ([c] + s)[1..] == s;
  }

  lemma CleanCons(p: string, rest: seq<string>)
    requires ',' !in p
    requires forall i :: 0 <= i < |rest| ==> ',' !in rest[i]
    ensures Clean([p] + rest) == (if Strip(p) == [] then [] else [Strip(p)]) + Clean(rest)
  {
    assert ([p] + rest)[1..] == rest;
  }

  /** Whitespace before the first comma does not change the tags. */
  lemma TagListConsSpace(c: char, s: string)
    requires IsSpace(c)
    ensures TagList([c] + s) == TagList(s)
  {
    var rest := Split(s);
    var p := [c] + rest[0];
    var tail := rest[1..];
    SplitCons(c, s);
    assert TagList([c] + s) == Clean([p] + tail);
    CleanCons(p, tail);
    CleanCons(rest[0], tail);
    StripConsSpace(c, rest[0]);
    assert Clean([p] + tail) == Clean([rest[0]] + tail);
    assert [rest[0]] + tail == rest;
  }

  /** A character that is neither whitespace nor a comma starts a tag. */
  lemma TagListConsOther(c: char, s: string)
    requires !IsSpace(c) && c != ','
    ensures TagList([c] + s) != []
  {
    var rest := Split(s);
    SplitCons(c, s);
    CleanCons([c] + rest[0], rest[1..]);
    assert ([c] + rest[0])[0] == c;
    assert !AllSpace([c] + rest[0]);
    StripEmptyIff([c] + rest[0]);
  }

  /** A leading comma adds only an empty piece, which yields no tag. */
  lemma TagListConsComma(s: string)
    ensures TagList([','] + s) == TagList(s)
  {
    var rest := Split(s);
    assert ([','] + s)[1..] == s;
    assert Split([','] + s) == [[]] + rest;
    assert ([[]] + rest)[1..] == rest;
  }

  /** Only commas and whitespace: the strings that yield no tag. */
  predicate Blank(s: string) {
    forall i :: 0 <= i < |s| ==> s[i] == ',' || IsSpace(s[i])
  }

  lemma BlankCons(c: char, s: string)
    ensures Blank([c] + s) <==> (c == ',' || IsSpace(c)) && Blank(s)
  {
    var t := [c] + s;
    assert t[0] == c;
    assert forall i :: 0 <= i < |s| ==> t[i + 1] == s[i];
    if (c == ',' || IsSpace(c)) && Blank(s) {
      forall i | 0 <= i < |t| ensures t[i] == ',' || IsSpace(t[i]) {
        if i > 0 { assert t[i] == s[i - 1]; }
      }
    }
  }

  /** An entry has no tags exactly when its `tags` holds only whitespace and commas. */
  lemma {:induction false} TagListEmptyIff(s: string)
    ensures TagList(s) == [] <==> Blank(s)
  {
    if s == [] {
      TagListOfDefault();
    } else {
      var c, rest := s[0], s[1..];
      TagListEmptyIff(rest);
      BlankCons(c, rest);
      assert s == [c] + rest;
      if c == ',' {
        TagListConsComma(rest);
      } else if IsSpace(c) {
        TagListConsSpace(c, rest);
      } else {
        TagListConsOther(c, rest);
      }
    }
  }

  lemma TagListOfWord(w: string)
    requires IsTag(w)
    ensures TagList(w) == [w]
  {
    TagListOfPiece(w);
  }

  lemma TagListOfSpacedWord(w: string)
    requires IsTag(w)
    ensures TagList([' '] + w) == [w]
  {
    TagListConsSpace(' ', w);
    TagListOfWord(w);
  }

  /** The example of a journal entry tagged "outdoors, hiking". */
  lemma TagListExample()
    ensures TagList("outdoors, hiking") == ["outdoors", "hiking"]
  {
    assert IsTag("outdoors") && IsTag("hiking");
    assert "outdoors, hiking" == "outdoors" + [','] + ([' '] + "hiking");
    TagListOfWord("outdoors");
    TagListOfSpacedWord("hiking");
    TagListConcat("outdoors", [' '] + "hiking");
  }
}
