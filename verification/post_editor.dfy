/**
 * The post editor (src/components/admin/PostEditor.tsx): the slug generated from
 * the title, the excerpt fallback, the tag-list parser and the payload that the
 * Publish and Save-as-Draft buttons send. The insert/update call is the `answer`
 * parameter of `HandleSubmit`; the publish date is not modelled.
 */
module Editor {
  import opened Wrappers
  import Seqs
  import Ascii
  import Posts

  // ---------------------------------------------------------------------------
  // Slug: title.toLowerCase().replace(/[^a-z0-9]+/g, '-').replace(/(^-|-$)/g, '')
  // ---------------------------------------------------------------------------

  predicate IsSlugChar(c: char) {
    ('a' <= c <= 'z') || ('0' <= c <= '9')
  }

  /** Only `a-z`, `0-9` and `-`. */
  predicate SlugAlphabet(s: string) {
    forall i :: 0 <= i < |s| ==> IsSlugChar(s[i]) || s[i] == '-'
  }

  /** No two `-` in a row. */
  predicate NoDoubleDash(s: string) {
    forall i :: 0 <= i < |s| - 1 ==> !(s[i] == '-' && s[i + 1] == '-')
  }

  /** A well-formed slug: its alphabet, no doubled dash, no dash at either end. */
  predicate IsSlug(s: string) {
    SlugAlphabet(s) && NoDoubleDash(s) && (s == [] || (s[0] != '-' && s[|s| - 1] != '-'))
  }

  /** The end of the run of characters outside `[a-z0-9]` that starts at `i`. */
  function RunEnd(s: string, i: nat): (j: nat)
    requires i <= |s|
    ensures i <= j <= |s|
    ensures j == |s| || IsSlugChar(s[j])
    ensures forall k :: i <= k < j ==> !IsSlugChar(s[k])
    decreases |s| - i
  {
    if i < |s| && !IsSlugChar(s[i]) then RunEnd(s, i + 1) else i
  }

  /** The letters and digits of `s`, in their order: what slug generation must keep. */
  function SlugChars(s: string): string {
    if s == [] then [] else (if IsSlugChar(s[0]) then [s[0]] else []) + SlugChars(s[1..])
  }

  /** The letters and digits of a concatenation are those of each part. */
  lemma {:induction false} SlugCharsConcat(a: string, b: string)
    ensures SlugChars(a + b) == SlugChars(a) + SlugChars(b)
  {
    if a == [] {
      assert a + b == b;
    } else {
      assert (a + b)[0] == a[0] && (a + b)[1..] == a[1..] + b;
      SlugCharsConcat(a[1..], b);
      var h: string := if IsSlugChar(a[0]) then [a[0]] else [];
      Seqs.AppendAssoc(h, SlugChars(a[1..]), SlugChars(b));
    }
  }

  /** A string with no letter or digit contributes none. */
  lemma {:induction false} SlugCharsNone(s: string)
    requires forall k :: 0 <= k < |s| ==> !IsSlugChar(s[k])
    ensures SlugChars(s) == []
  {
    if s != [] {
      SlugCharsNone(s[1..]);
    }
  }

  /** `.replace(/[^a-z0-9]+/g, '-')`: every maximal run outside `[a-z0-9]` becomes one `-`. */
  function CollapseRuns(s: string): (r: string)
    ensures SlugAlphabet(r) && NoDoubleDash(r)
    ensures s == [] <==> r == []
    ensures s != [] ==> (r[0] == '-' <==> !IsSlugChar(s[0]))
    ensures SlugChars(r) == SlugChars(s)
    decreases |s|
  {
    if s == [] then []
    else if IsSlugChar(s[0]) then
      var rest := CollapseRuns(s[1..]);
      SlugCharsConcat([s[0]], s[1..]);
      SlugCharsConcat([s[0]], rest);
      assert [s[0]] + s[1..] == s;
      [s[0]] + rest
    else
      var j := RunEnd(s, 1);
      var rest := CollapseRuns(s[j..]);
      SlugCharsConcat(s[..j], s[j..]);
      SlugCharsNone(s[..j]);
      SlugCharsConcat("-", rest);
      SlugCharsNone("-");
      assert s[..j] + s[j..] == s;
      "-" + rest
  }

  /** Letters and digits in front of the rest are kept as they are. */
  lemma {:induction false} CollapseWordPrefix(a: string, x: string)
    requires forall k :: 0 <= k < |a| ==> IsSlugChar(a[k])
    ensures CollapseRuns(a + x) == a + CollapseRuns(x)
    decreases |a|
  {
    if a == [] {
      assert a + x == x;
    } else {
      var s := a + x;
      assert s[0] == a[0] && s[1..] == a[1..] + x;
      assert CollapseRuns(s) == [a[0]] + CollapseRuns(a[1..] + x);
      CollapseWordPrefix(a[1..], x);
      Seqs.AppendAssoc([a[0]], a[1..], CollapseRuns(x));
      assert [a[0]] + a[1..] == a;
    }
  }

  /** The run outside `[a-z0-9]` from `i` ends at the first letter or digit at or after `i`. */
  lemma {:induction false} RunEndAt(s: string, i: nat, j: nat)
    requires i <= j <= |s|
    requires forall k :: i <= k < j ==> !IsSlugChar(s[k])
    requires j == |s| || IsSlugChar(s[j])
    ensures RunEnd(s, i) == j
    decreases j - i
  {
    if i < j {
      RunEndAt(s, i + 1, j);
    }
  }

  /** A whole run outside `[a-z0-9]`, up to a letter, a digit or the end, becomes one `-`. */
  lemma CollapseRunPrefix(w: string, b: string)
    requires w != [] && forall k :: 0 <= k < |w| ==> !IsSlugChar(w[k])
    requires b == [] || IsSlugChar(b[0])
    ensures CollapseRuns(w + b) == "-" + CollapseRuns(b)
  {
    var s := w + b;
    assert forall k :: 1 <= k < |w| ==> s[k] == w[k];
    assert |w| < |s| ==> s[|w|] == b[0];
    RunEndAt(s, 1, |w|);
    assert s[|w|..] == b;
  }

  /** `.replace(/(^-|-$)/g, '')`: one leading and one trailing `-` removed. */
  function TrimDashes(s: string): (r: string)
    ensures |r| <= |s|
    ensures SlugAlphabet(s) ==> SlugAlphabet(r)
    ensures NoDoubleDash(s) ==> NoDoubleDash(r) && (r == [] || (r[0] != '-' && r[|r| - 1] != '-'))
    ensures (s == [] || (s[0] != '-' && s[|s| - 1] != '-')) ==> r == s
    ensures var lead := if s != [] && s[0] == '-' then 1 else 0;
            var trail := if |s| > lead && s[|s| - 1] == '-' then 1 else 0;
            r == s[lead..|s| - trail]
  {
    var lead := if s != [] && s[0] == '-' then 1 else 0;
    var trail := if |s| > lead && s[|s| - 1] == '-' then 1 else 0;
    var r := s[lead..|s| - trail];
    assert forall k :: 0 <= k < |r| ==> r[k] == s[lead + k];
    r
  }

  /** Cutting end dashes keeps the letters and digits. */
  lemma TrimDashesKeepsSlugChars(s: string)
    ensures SlugChars(TrimDashes(s)) == SlugChars(s)
  {
    var lead := if s != [] && s[0] == '-' then 1 else 0;
    var trail := if |s| > lead && s[|s| - 1] == '-' then 1 else 0;
    var t := s[lead..];
    assert SlugChars(t) == SlugChars(s) by {
      if lead == 1 {
        SlugCharsDropFirst(s);
      }
    }
    assert TrimDashes(s) == t[..|t| - trail];
    if trail == 1 {
      assert t[|t| - 1] == '-';
      SlugCharsDropLast(t);
    } else {
      assert t[..|t|] == t;
    }
  }

  /** A first character that is not a letter or digit contributes nothing. */
  lemma SlugCharsDropFirst(s: string)
    requires s != [] && !IsSlugChar(s[0])
    ensures SlugChars(s[1..]) == SlugChars(s)
  {
  }

  /** A last character that is not a letter or digit contributes nothing. */
  lemma SlugCharsDropLast(s: string)
    requires s != [] && !IsSlugChar(s[|s| - 1])
    ensures SlugChars(s[..|s| - 1]) == SlugChars(s)
  {
    var init, last := s[..|s| - 1], s[|s| - 1..];
    assert s == init + last;
    SlugCharsConcat(init, last);
    assert SlugChars(last) == [];
    assert SlugChars(init) + [] == SlugChars(init);
  }

  /** The slug generated from a title. */
  function Slugify(title: string): (r: string)
    ensures IsSlug(r)
    ensures SlugChars(r) == SlugChars(Ascii.Lower(title))
  {
    TrimDashesKeepsSlugChars(CollapseRuns(Ascii.Lower(title)));
    TrimDashes(CollapseRuns(Ascii.Lower(title)))
  }

  /** Collapsing runs keeps a string made of slug characters and single inner dashes. */
  lemma {:induction false} CollapseRunsKeepsSlugBody(s: string)
    requires SlugAlphabet(s) && NoDoubleDash(s)
    requires s == [] || s[|s| - 1] != '-'
    ensures CollapseRuns(s) == s
    decreases |s|
  {
    if s != [] {
      var tail := s[1..];
      assert SlugAlphabet(tail) by {
        forall k | 0 <= k < |tail| ensures IsSlugChar(tail[k]) || tail[k] == '-' {
          assert tail[k] == s[k + 1];
        }
      }
      assert NoDoubleDash(tail) by {
        forall k | 0 <= k < |tail| - 1 ensures !(tail[k] == '-' && tail[k + 1] == '-') {
          assert tail[k] == s[k + 1] && tail[k + 1] == s[k + 2];
        }
      }
      CollapseRunsKeepsSlugBody(tail);
      if !IsSlugChar(s[0]) {
        assert s[0] == '-';
        assert |s| > 1;
        assert s[1] != '-';
        assert IsSlugChar(s[1]);
        assert RunEnd(s, 1) == 1;
        assert CollapseRuns(s) == "-" + tail;
      } else {
        assert CollapseRuns(s) == [s[0]] + tail;
      }
      assert [s[0]] + tail == s;
    }
  }

  /** Slugifying a slug returns it unchanged. */
  lemma SlugifyKeepsSlug(s: string)
    requires IsSlug(s)
    ensures Slugify(s) == s
  {
    assert Ascii.Lower(s) == s;
    CollapseRunsKeepsSlugBody(s);
  }

  /** Slugifying is idempotent. */
  lemma SlugifyIdempotent(title: string)
    ensures Slugify(Slugify(title)) == Slugify(title)
  {
    SlugifyKeepsSlug(Slugify(title));
  }

  /**
   * Two words of lower-case letters and digits around a separator with no
   * letter or digit, not even once lower-cased, give the words joined by one dash.
   */
  lemma SlugifyTwoWords(a: string, w: string, b: string)
    requires a != [] && forall k :: 0 <= k < |a| ==> IsSlugChar(a[k])
    requires b != [] && forall k :: 0 <= k < |b| ==> IsSlugChar(b[k])
    requires w != [] && forall k :: 0 <= k < |w| ==> !IsSlugChar(Ascii.LowerChar(w[k]))
    ensures Slugify(a + w + b) == a + "-" + b
  {
    var lw := Ascii.Lower(w);
    assert Ascii.Lower(a + w + b) == a + (lw + b) by {
      LowerAroundWord(a, w, b);
    }
    assert forall k :: 0 <= k < |lw| ==> !IsSlugChar(lw[k]);
    calc {
      CollapseRuns(a + (lw + b));
      { CollapseWordPrefix(a, lw + b); }
      a + CollapseRuns(lw + b);
      { CollapseRunPrefix(lw, b); }
      a + ("-" + CollapseRuns(b));
      { CollapseWordPrefix(b, []); assert b + [] == b; }
      a + ("-" + b);
      { Seqs.AppendAssoc(a, "-", b); }
      a + "-" + b;
    }
    var r := a + "-" + b;
    assert r[0] == a[0] && r[|r| - 1] == b[|b| - 1];
  }

  /** Lower-casing leaves words of lower-case letters and digits as they are. */
  lemma LowerAroundWord(a: string, w: string, b: string)
    requires forall k :: 0 <= k < |a| ==> IsSlugChar(a[k])
    requires forall k :: 0 <= k < |b| ==> IsSlugChar(b[k])
    ensures Ascii.Lower(a + w + b) == a + (Ascii.Lower(w) + b)
  {
    var s, t := a + w + b, a + (Ascii.Lower(w) + b);
    var ls := Ascii.Lower(s);
    forall k | 0 <= k < |s| ensures ls[k] == t[k] {
      if k < |a| {
        assert s[k] == a[k] && t[k] == a[k];
      } else if k < |a| + |w| {
        assert s[k] == w[k - |a|] && t[k] == Ascii.Lower(w)[k - |a|];
      } else {
        assert s[k] == b[k - |a| - |w|] && t[k] == b[k - |a| - |w|];
      }
    }
  }

  /** `handleTitleChange`: only a new post whose slug is still empty takes the slug of the title. */
  function NextSlug(isNewPost: bool, slug: string, newTitle: string): (r: string)
    ensures isNewPost && slug == "" ==> r == Slugify(newTitle) && IsSlug(r)
    ensures !(isNewPost && slug == "") ==> r == slug
  {
    if isNewPost && slug == "" then Slugify(newTitle) else slug
  }

  /**
   * The slug is taken at the first keystroke that gives a non-empty slug and
   * then kept: typing "Hi" letter by letter leaves the slug "h".
   */
  lemma SlugIsTakenFromFirstKeystroke()
    ensures NextSlug(true, NextSlug(true, "", "H"), "Hi") == "h"
  {
    assert Ascii.Lower("H") == "h";
    assert CollapseRuns("h") == "h";
  }

  // ---------------------------------------------------------------------------
  // Excerpt: excerpt || content.replace(/<[^>]*>?/gm, '').slice(0, 150) + '...'
  // ---------------------------------------------------------------------------

  /** After a `<`: skips up to and including the next `>`, or to the end. */
  function SkipTag(s: string): (r: string)
    ensures |r| <= |s| && r == s[|s| - |r|..]
    ensures '>' !in s ==> r == []
    ensures '>' in s ==> |r| < |s| && s[|s| - |r| - 1] == '>' && '>' !in s[..|s| - |r| - 1]
  {
    if s == [] then []
    else if s[0] == '>' then s[1..]
    else SkipTag(s[1..])
  }

  /** `.replace(/<[^>]*>?/gm, '')`: every tag, and an unclosed `<` with the rest, removed. */
  function StripTags(s: string): (r: string)
    ensures '<' !in r
    ensures |r| <= |s|
    ensures '<' !in s ==> r == s
    decreases |s|
  {
    if s == [] then []
    else if s[0] == '<' then StripTags(SkipTag(s[1..]))
    else [s[0]] + StripTags(s[1..])
  }

  /** Text without `<` in front of the rest is kept as it is. */
  lemma {:induction false} StripPlainPrefix(a: string, x: string)
    requires '<' !in a
    ensures StripTags(a + x) == a + StripTags(x)
    decreases |a|
  {
    if a == [] {
      assert a + x == x;
    } else {
      var s := a + x;
      assert s[0] == a[0] && s[1..] == a[1..] + x;
      assert StripTags(s) == [a[0]] + StripTags(a[1..] + x);
      StripPlainPrefix(a[1..], x);
      Seqs.AppendAssoc([a[0]], a[1..], StripTags(x));
      assert [a[0]] + a[1..] == a;
    }
  }

  /** A closed tag is removed, and the text before it kept. */
  lemma StripClosedTag(a: string, t: string, b: string)
    requires '<' !in a && '>' !in t
    ensures StripTags(a + "<" + t + ">" + b) == a + StripTags(b)
  {
    var tb := t + ">" + b;
    var x := "<" + tb;
    Seqs.AppendAssoc(a + "<", t, ">");
    Seqs.AppendAssoc(a + "<", t + ">", b);
    Seqs.AppendAssoc(a, "<", tb);
    assert x[0] == '<' && x[1..] == tb;
    SkipClosedTag(t, b);
    assert StripTags(x) == StripTags(b);
    StripPlainPrefix(a, x);
  }

  /** Skipping a tag stops right after its `>`. */
  lemma {:induction false} SkipClosedTag(t: string, b: string)
    requires '>' !in t
    ensures SkipTag(t + ">" + b) == b
  {
    if t == [] {
      assert t + ">" + b == ">" + b;
    } else {
      assert (t + ">" + b)[1..] == t[1..] + ">" + b;
      SkipClosedTag(t[1..], b);
    }
  }

  /** A `<` that is never closed removes everything after it. */
  lemma StripUnclosedTag(a: string, t: string)
    requires '<' !in a && '>' !in t
    ensures StripTags(a + "<" + t) == a
  {
    var x := "<" + t;
    assert x[0] == '<' && x[1..] == t;
    assert StripTags(x) == [];
    StripPlainPrefix(a, x);
    Seqs.AppendAssoc(a, "<", t);
  }

  /** The number of characters of the stripped content the generated excerpt keeps. */
  const ExcerptLength: nat := 150

  /** The excerpt saved: the typed one verbatim, or the start of the tag-free content and "...". */
  function SavedExcerpt(excerpt: string, content: string): (r: string)
    ensures excerpt != "" ==> r == excerpt
    ensures excerpt == "" ==>
      && 3 <= |r| <= ExcerptLength + 3
      && |r| - 3 <= |StripTags(content)|
      && r[|r| - 3..] == "..."
      && '<' !in r
      && r[..|r| - 3] == StripTags(content)[..|r| - 3]
      && |r| == 3 + (if |StripTags(content)| < ExcerptLength then |StripTags(content)| else ExcerptLength)
  {
    if excerpt != "" then excerpt
    else Seqs.Take(StripTags(content), ExcerptLength) + "..."
  }

  // ---------------------------------------------------------------------------
  // Tags: tags.split(',').map(t => t.trim()).filter(Boolean)
  // ---------------------------------------------------------------------------

  /** `filter(Boolean)` on a string: not empty. */
  predicate IsTag(t: string) {
    t != ""
  }

  /** `tags.split(',').map(t => t.trim())`: every piece of the field, trimmed. */
  function TrimmedPieces(field: string): (r: seq<string>)
    ensures |r| == |Ascii.Split(field, ',')|
    ensures forall i :: 0 <= i < |r| ==> TrimmedPiece(r[i])
  {
    var pieces := Ascii.Split(field, ',');
    var r := seq(|pieces|, i requires 0 <= i < |pieces| => Ascii.Trim(pieces[i]));
    forall i | 0 <= i < |r| ensures TrimmedPiece(r[i]) {
      TrimKeepsNoComma(pieces[i]);
    }
    r
  }

  /**
   * The tags saved from the comma-separated field: the trimmed pieces that are
   * not empty, in their order.
   */
  function ParseTags(field: string): (r: seq<string>)
    ensures Seqs.IsSubsequence(r, TrimmedPieces(field))
    ensures forall t :: multiset(r)[t] == if IsTag(t) then multiset(TrimmedPieces(field))[t] else 0
  {
    Seqs.Filter(TrimmedPieces(field), IsTag)
  }

  /** Every saved tag is non-empty, trimmed and comma-free. */
  lemma ParseTagsClean(field: string)
    ensures forall i :: 0 <= i < |ParseTags(field)| ==> CleanTag(ParseTags(field)[i])
  {
    var r := ParseTags(field);
    var trimmed := TrimmedPieces(field);
    forall i | 0 <= i < |r| ensures CleanTag(r[i]) {
      assert r[i] in trimmed;
    }
  }

  /** A string is a saved tag iff it is the non-empty trim of some piece of the field. */
  lemma ParseTagsMembers(field: string)
    ensures forall t :: t in ParseTags(field) <==>
              IsTag(t) && exists p :: p in Ascii.Split(field, ',') && Ascii.Trim(p) == t
  {
    TrimmedPiecesMembers(field);
  }

  /** Each trimmed piece is the trim of the piece of the split at the same place. */
  lemma TrimmedPiecesAt(field: string)
    ensures forall i :: 0 <= i < |TrimmedPieces(field)| ==>
              TrimmedPieces(field)[i] == Ascii.Trim(Ascii.Split(field, ',')[i])
  {
  }

  /** The trimmed pieces are exactly the trims of the pieces of the split. */
  lemma TrimmedPiecesMembers(field: string)
    ensures forall t :: t in TrimmedPieces(field) <==> exists p :: p in Ascii.Split(field, ',') && Ascii.Trim(p) == t
  {
    var pieces := Ascii.Split(field, ',');
    var trimmed := TrimmedPieces(field);
    TrimmedPiecesAt(field);
    forall t | t in trimmed ensures exists p :: p in pieces && Ascii.Trim(p) == t {
      var i :| 0 <= i < |trimmed| && trimmed[i] == t;
      assert pieces[i] in pieces;
    }
    forall p | p in pieces ensures Ascii.Trim(p) in trimmed {
      var i :| 0 <= i < |pieces| && pieces[i] == p;
      assert trimmed[i] == Ascii.Trim(p);
    }
  }

  /** A trimmed piece of the field: no surrounding white space, no comma. */
  predicate TrimmedPiece(t: string) {
    Ascii.IsTrimmed(t) && ',' !in t
  }

  /** Trimming cannot introduce a comma. */
  lemma TrimKeepsNoComma(p: string)
    requires ',' !in p
    ensures TrimmedPiece(Ascii.Trim(p))
  {
  }

  /** A tag the field gives back unchanged: non-empty, trimmed, without a comma. */
  predicate CleanTag(t: string) {
    t != "" && Ascii.IsTrimmed(t) && ',' !in t
  }

  /** The field shows `post.tags.join(', ')`; saving it unedited gives back the same tags. */
  lemma {:induction false} TagsRoundTrip(tags: seq<string>)
    requires forall i :: 0 <= i < |tags| ==> CleanTag(tags[i])
    ensures ParseTags(Ascii.Join(tags, ", ")) == tags
  {
    if tags == [] {
      assert Ascii.Split("", ',') == [""];
      assert Seqs.Filter([""], IsTag) == [];
    } else {
      var pieces := Spaced(tags);
      JoinSpaced(tags);
      Ascii.SplitJoin(pieces, ',');
      assert Ascii.Split(Ascii.Join(tags, ", "), ',') == pieces;
      var trimmed := TrimmedPieces(Ascii.Join(tags, ", "));
      TrimSpaced(tags);
      assert trimmed == tags;
      Seqs.FilterKeepsAll(tags, IsTag);
    }
  }

  /** Trimming each spaced piece gives back its tag. */
  lemma TrimSpaced(tags: seq<string>)
    requires tags != []
    requires forall i :: 0 <= i < |tags| ==> CleanTag(tags[i])
    ensures forall i :: 0 <= i < |tags| ==> Ascii.Trim(Spaced(tags)[i]) == tags[i]
  {
    var pieces := Spaced(tags);
    forall i | 0 <= i < |tags| ensures Ascii.Trim(pieces[i]) == tags[i] {
      if i > 0 {
        assert pieces[i] == [' '] + tags[i];
        Ascii.TrimLeadingSpace(' ', tags[i]);
      }
      Ascii.TrimTrimmed(tags[i]);
    }
  }

  /** The pieces of `tags.join(', ')` split at commas: every tag but the first keeps a leading space. */
  function Spaced(tags: seq<string>): (r: seq<string>)
    requires tags != []
    ensures |r| == |tags| && r[0] == tags[0]
    ensures forall i :: 0 < i < |tags| ==> r[i] == " " + tags[i]
  {
    [tags[0]] + seq(|tags| - 1, i requires 0 <= i < |tags| - 1 => " " + tags[i + 1])
  }

  /** Joining with ", " is joining the spaced pieces with ",". */
  lemma {:induction false} JoinSpaced(tags: seq<string>)
    requires tags != []
    ensures Ascii.Join(tags, ", ") == Ascii.Join(Spaced(tags), ",")
  {
    if |tags| > 1 {
      JoinSpaced(tags[1..]);
      var rest := Spaced(tags[1..]);
      var sp := Spaced(tags);
      var x := Ascii.Join(rest, ",");
      assert Ascii.Join(tags, ", ") == tags[0] + ", " + x;
      assert sp[1..] == [" " + rest[0]] + rest[1..];
      JoinPrefixFirst(rest, " ");
      assert Ascii.Join(sp[1..], ",") == " " + x;
      assert Ascii.Join(sp, ",") == tags[0] + "," + (" " + x);
      assert ", " == "," + " ";
      Seqs.AppendAssoc(tags[0], ",", " ");
      Seqs.AppendAssoc(tags[0] + ",", " ", x);
    }
  }

  /** Prefixing the first piece prefixes the join. */
  lemma JoinPrefixFirst(ps: seq<string>, pre: string)
    requires ps != []
    ensures Ascii.Join([pre + ps[0]] + ps[1..], ",") == pre + Ascii.Join(ps, ",")
  {
    var qs := [pre + ps[0]] + ps[1..];
    if |ps| > 1 {
      assert qs[0] == pre + ps[0] && qs[1..] == ps[1..];
      var x := Ascii.Join(ps[1..], ",");
      assert Ascii.Join(qs, ",") == (pre + ps[0]) + "," + x;
      assert Ascii.Join(ps, ",") == ps[0] + "," + x;
      Seqs.AppendAssoc(pre, ps[0], ",");
      Seqs.AppendAssoc(pre, ps[0] + ",", x);
    }
  }

  // ---------------------------------------------------------------------------
  // The editor
  // ---------------------------------------------------------------------------

  /** `featuredImage || null`. */
  function SavedImage(featuredImage: string): (r: Option<string>)
    ensures r == None <==> featuredImage == ""
    ensures r.Some? ==> r.value == featuredImage
  {
    if featuredImage == "" then None else Some(featuredImage)
  }

  /** The fields sent to the `posts` table (the publish date is not modelled). */
  datatype PostData = PostData(
    title: string,
    slug: string,
    excerpt: string,
    content: string,
    published: bool,
    tags: seq<string>,
    featuredImage: Option<string>)

  /** An insert for a new post, an update of the edited one. */
  datatype SaveRequest = Insert(data: PostData) | Update(postId: string, data: PostData)

  /** The table's answer. */
  datatype SaveAnswer = Saved | SaveFailed(message: string)

  /**
   * The `postData` object built from the form fields; `isPublish` is the button
   * pressed (Publish: true, Save as Draft: false).
   */
  function Payload(title: string, slug: string, excerpt: string, content: string,
                   tags: string, featuredImage: string, isPublish: bool): (d: PostData)
    ensures d.published == isPublish
    ensures d.title == title && d.slug == slug && d.content == content
    ensures excerpt != "" ==> d.excerpt == excerpt
    ensures excerpt == "" ==> |d.excerpt| <= ExcerptLength + 3 && '<' !in d.excerpt
    ensures forall i :: 0 <= i < |d.tags| ==> CleanTag(d.tags[i])
    ensures d.featuredImage == None <==> featuredImage == ""
    ensures d.excerpt == SavedExcerpt(excerpt, content)
    ensures d.tags == ParseTags(tags)
    ensures d.featuredImage == SavedImage(featuredImage)
  {
    ParseTagsClean(tags);
    PostData(title, slug, SavedExcerpt(excerpt, content), content, isPublish, ParseTags(tags), SavedImage(featuredImage))
  }

  /** An update of the edited post, or an insert of a new one. */
  function RequestFor(post: Option<Posts.Post>, data: PostData): (r: SaveRequest)
    ensures r.data == data
    ensures r.Update? <==> post.Some?
    ensures r.Update? ==> r.postId == post.value.id
  {
    if post.Some? then Update(post.value.id, data) else Insert(data)
  }

  class PostEditor {
    /** The post being edited; `None` for a new post. */
    const post: Option<Posts.Post>
    var title: string
    var content: string
    var slug: string
    var excerpt: string
    var tags: string
    var featuredImage: string
    var loading: bool
    var error: Option<string>

    constructor (post: Option<Posts.Post>)
      ensures this.post == post && !loading && error == None
      ensures post.None? ==> title == "" && content == "" && slug == "" && excerpt == "" && tags == "" && featuredImage == ""
      ensures post.Some? ==> (title == post.value.title && content == post.value.content
        && slug == post.value.slug && excerpt == post.value.excerpt)
      ensures post.Some? ==> tags == if post.value.tags.Some? then Ascii.Join(post.value.tags.value, ", ") else ""
      ensures post.Some? ==> featuredImage == post.value.featuredImage.GetOr("")
    {
      this.post := post;
      if post.Some? {
        var p := post.value;
        title, content, slug, excerpt := p.title, p.content, p.slug, p.excerpt;
        tags := if p.tags.Some? then Ascii.Join(p.tags.value, ", ") else "";
        featuredImage := p.featuredImage.GetOr("");
      } else {
        title, content, slug, excerpt, tags, featuredImage := "", "", "", "", "", "";
      }
      loading := false;
      error := None;
    }

    /** `handleTitleChange`: sets the title, and the slug only for a new post with an empty slug. */
    method HandleTitleChange(newTitle: string)
      modifies this`title, this`slug
      ensures title == newTitle
      ensures slug == NextSlug(post.None?, old(slug), newTitle)
    {
      title := newTitle;
      if post.None? && slug == "" {
        slug := Slugify(newTitle);
      }
    }

    /**
     * `handleSubmit(isPublish)`: sends the payload (insert or update); on an
     * error shows it and re-enables the form, otherwise navigates away.
     */
    method HandleSubmit(isPublish: bool, answer: SaveAnswer) returns (request: SaveRequest, navigated: bool)
      modifies this`loading, this`error
      ensures request == RequestFor(post, Payload(old(title), old(slug), old(excerpt), old(content), old(tags), old(featuredImage), isPublish))
      ensures navigated <==> answer.Saved?
      ensures answer.Saved? ==> loading && error == None
      ensures answer.SaveFailed? ==> !loading && error == Some(answer.message)
    {
      var data := Payload(title, slug, excerpt, content, tags, featuredImage, isPublish);
      loading := true;
      error := None;
      request := RequestFor(post, data);
      if answer.SaveFailed? {
        error := Some(answer.message);
        loading := false;
        navigated := false;
      } else {
        navigated := true;
      }
    }
  }
}
