/** The comma-separated tag field of the edit form: reading it back into a tag list, and
    the autocomplete that suggests known tags for its last term. */
module TagInput {
  import opened Strings
  import opened Seqs
  import opened Bookmarks

  /** A piece of a comma split, trimmed, keeps neither surrounding blanks nor commas. */
  lemma TrimmedPiece(piece: string)
    requires ',' !in piece
    ensures IsTrimmed(Trim(piece)) && ',' !in Trim(piece)
  {
    TrimKeepsCharacters(piece);
  }

  /** `value.split(',').map(t => t.trim())`: the typed terms, at least one. */
  function Terms(value: string): (terms: seq<string>)
    ensures |terms| >= 1
    ensures forall i :: 0 <= i < |terms| ==> IsTrimmed(terms[i]) && ',' !in terms[i]
  {
    var pieces := Split(value, ',');
    assert forall i :: 0 <= i < |pieces| ==> IsTrimmed(Trim(pieces[i])) && ',' !in Trim(pieces[i]) by {
      forall i | 0 <= i < |pieces| ensures IsTrimmed(Trim(pieces[i])) && ',' !in Trim(pieces[i]) {
        TrimmedPiece(pieces[i]);
      }
    }
    Map(pieces, Trim)
  }

  /** The tag list the edit form saves: the non-empty trimmed terms. */
  function ParseTags(field: string): (tags: seq<string>)
    ensures forall t :: t in tags ==> t != "" && IsTrimmed(t) && ',' !in t
    ensures IsSubsequence(tags, Terms(field))
    ensures forall t :: t in tags <==> t in Terms(field) && t != ""
    ensures forall t :: t != "" ==> multiset(tags)[t] == multiset(Terms(field))[t]
  {
    FilterIsSubsequence(Terms(field), t => t != "");
    forall t | t != "" ensures multiset(Filter(Terms(field), t => t != ""))[t] == multiset(Terms(field))[t] {
      FilterCount(Terms(field), t => t != "", t);
    }
    Filter(Terms(field), t => t != "")
  }

  /** A blank before a string does not change its terms. */
  lemma TermsLeadingBlank(y: string)
    ensures Terms(" " + y) == Terms(y)
  {
    SplitAfterHead(" ", y, ',');
    var p := Split(y, ',');
    var q := Split(" " + y, ',');
    assert q[0] == " " + p[0] && q[1..] == p[1..];
    TrimLeadingWhitespace(' ', p[0]);
    MapSameHead(q, p, Trim);
  }

  /** A comma after a comma-free head cuts off one term. */
  lemma TermsCons(x: string, rest: string)
    requires ',' !in x
    ensures Terms(x + [','] + rest) == [Trim(x)] + Terms(rest)
  {
    SplitAtSeparator(x, rest, ',');
    MapAppend([x], Split(rest, ','), Trim);
  }

  /** A lone blank is one empty term. */
  lemma TermsOfBlank()
    ensures Terms(" ") == [""]
  {
    SplitNoSeparator(" ", ',');
    TrimBlank();
  }

  /** `xs.join(', ') + ', '` is the first element, a comma, and a blank before the rest
      joined the same way. */
  lemma JoinedStep(xs: seq<string>)
    requires |xs| >= 2
    ensures Join(xs, ", ") + ", " == xs[0] + [','] + (" " + (Join(xs[1..], ", ") + ", "))
  {
    CommaShape(xs[0], Join(xs[1..], ", "));
  }

  /** Regrouping `a, j, ` around its first comma. */
  lemma CommaShape(a: string, j: string)
    ensures a + ", " + j + ", " == a + [','] + (" " + (j + ", "))
  {
  }

  /** The terms of `xs.join(', ') + ', '` are the trimmed `xs` followed by one empty term. */
  lemma {:induction false} TermsOfJoined(xs: seq<string>)
    requires |xs| >= 1 && forall i :: 0 <= i < |xs| ==> ',' !in xs[i]
    ensures Terms(Join(xs, ", ") + ", ") == Map(xs, Trim) + [""]
    decreases |xs|
  {
    if |xs| == 1 {
      TermsOfJoinedOne(xs);
    } else {
      TermsOfJoined(xs[1..]);
      TermsOfJoinedStep(xs);
    }
  }

  /** A single tag joins to itself, followed by the comma and blank. */
  lemma TermsOfJoinedOne(xs: seq<string>)
    requires |xs| == 1 && ',' !in xs[0]
    ensures Terms(Join(xs, ", ") + ", ") == Map(xs, Trim) + [""]
  {
    JoinedOne(xs);
    TermsOfLast(xs[0]);
    MapTrimOne(xs);
  }

  /** `[x].join(', ') + ', '` is `x`, a comma and a blank. */
  lemma JoinedOne(xs: seq<string>)
    requires |xs| == 1
    ensures Join(xs, ", ") + ", " == xs[0] + [','] + " "
  {
  }

  /** A comma-free term followed by a comma and a blank gives that term and an empty one. */
  lemma TermsOfLast(x: string)
    requires ',' !in x
    ensures Terms(x + [','] + " ") == [Trim(x)] + [""]
  {
    TermsCons(x, " ");
    TermsOfBlank();
  }

  /** The first tag becomes the first term; the rest are the terms of the rest. */
  lemma TermsOfJoinedStep(xs: seq<string>)
    requires |xs| >= 2 && ',' !in xs[0]
    requires Terms(Join(xs[1..], ", ") + ", ") == Map(xs[1..], Trim) + [""]
    ensures Terms(Join(xs, ", ") + ", ") == Map(xs, Trim) + [""]
  {
    var y := Join(xs[1..], ", ") + ", ";
    JoinedStep(xs);
    TermsAfterComma(xs[0], y);
    MapTrimCons(xs);
    AppendAssoc([Trim(xs[0])], Map(xs[1..], Trim), [""]);
  }

  /** A comma and a blank after a comma-free head: the head's term, then the terms of the
      rest. */
  lemma TermsAfterComma(x: string, y: string)
    requires ',' !in x
    ensures Terms(x + [','] + (" " + y)) == [Trim(x)] + Terms(y)
  {
    TermsCons(x, " " + y);
    TermsLeadingBlank(y);
  }

  lemma MapTrimOne(xs: seq<string>)
    requires |xs| == 1
    ensures Map(xs, Trim) == [Trim(xs[0])]
  {
  }

  lemma MapTrimCons(xs: seq<string>)
    requires |xs| >= 1
    ensures Map(xs, Trim) == [Trim(xs[0])] + Map(xs[1..], Trim)
  {
  }

  /** Trimming tags that are already trimmed changes none of them. */
  lemma MapTrimTrimmed(xs: seq<string>)
    requires forall t :: t in xs ==> IsTrimmed(t)
    ensures Map(xs, Trim) == xs
  {
    forall i | 0 <= i < |xs| ensures Trim(xs[i]) == xs[i] {
      TrimTrimmed(xs[i]);
    }
  }

  /** The edit form shows the tags as `tags.join(', ') + ', '`; saving it unchanged gives
      back the same tags (tags as the server stores them: non-empty, trimmed, comma-free). */
  lemma ParseTagsRoundTrip(tags: seq<string>)
    requires forall t :: t in tags ==> t != "" && IsTrimmed(t) && ',' !in t
    ensures ParseTags(Join(tags, ", ") + ", ") == tags
  {
    var keep := (t: string) => t != "";
    if tags == [] {
      JoinedNone(tags);
      TermsOfLast("");
      TrimTrimmed("");
    } else {
      TermsOfJoined(tags);
      MapTrimTrimmed(tags);
      FilterAppend(tags, [""], keep);
      FilterKeepsAll(tags, keep);
    }
  }

  /** No tags show as a lone comma and blank. */
  lemma JoinedNone(xs: seq<string>)
    requires xs == []
    ensures Join(xs, ", ") + ", " == "" + [','] + " "
  {
  }

  /** The lowered last term, the one being typed. */
  function CurrentTerm(value: string): string
  {
    var terms := Terms(value);
    ToLower(terms[|terms| - 1])
  }

  /** The suggestions for the tag field: nothing while the last term is empty; otherwise
      the known tags, in their order, that start with the last term case-insensitively
      and are not already typed. */
  function Suggestions(allTags: seq<string>, value: string): (r: seq<string>)
    ensures CurrentTerm(value) == "" ==> r == []
    ensures forall s :: s in r <==>
              CurrentTerm(value) != "" && s in allTags
              && StartsWith(ToLower(s), CurrentTerm(value)) && s !in Terms(value)
    ensures IsSubsequence(r, allTags)
  {
    var current := CurrentTerm(value);
    var terms := Terms(value);
    if current == "" then []
    else
      var keep := (tag: string) => StartsWith(ToLower(tag), current) && tag !in terms;
      FilterIsSubsequence(allTags, keep);
      Filter(allTags, keep)
  }

  /** Clicking a suggestion: the last term becomes the tag, and the field becomes the
      terms joined by `, ` with a trailing `, `. */
  function PickSuggestion(value: string, tag: string): string
  {
    var terms := Terms(value);
    Join(terms[..|terms| - 1] + [tag], ", ") + ", "
  }

  /** Picking replaces only the last term: the earlier terms stay, the picked tag
      follows, and a fresh empty term is left to type into. */
  lemma PickReplacesLastTerm(value: string, tag: string)
    requires ',' !in tag
    ensures var terms := Terms(value);
            Terms(PickSuggestion(value, tag)) == terms[..|terms| - 1] + [Trim(tag)] + [""]
  {
    var terms := Terms(value);
    var init := terms[..|terms| - 1];
    var xs := init + [tag];
    assert forall i :: 0 <= i < |xs| ==> ',' !in xs[i] by {
      assert forall i :: 0 <= i < |init| ==> xs[i] == terms[i];
    }
    TermsOfJoined(xs);
    forall i | 0 <= i < |init| ensures Trim(init[i]) == init[i] {
      TrimTrimmed(terms[i]);
    }
    assert Map(init, Trim) == init;
    calc {
      Terms(PickSuggestion(value, tag));
      Terms(Join(xs, ", ") + ", ");
      Map(xs, Trim) + [""];
      { MapAppend(init, [tag], Trim); }
      Map(init, Trim) + Map([tag], Trim) + [""];
      { assert Map([tag], Trim) == [Trim(tag)]; }
      init + [Trim(tag)] + [""];
    }
  }

  /** Right after a pick nothing is suggested, since the last term is empty again. */
  lemma NoSuggestionsAfterPick(allTags: seq<string>, value: string, tag: string)
    requires ',' !in tag
    ensures Suggestions(allTags, PickSuggestion(value, tag)) == []
  {
    PickReplacesLastTerm(value, tag);
  }

  /** The update the edit form sends. */
  function EditPayload(b: Bookmark, url: string, title: string, description: string, tagsField: string): Bookmark
  {
    b.(url := url, title := title, description := description, tagNames := ParseTags(tagsField))
  }
}
