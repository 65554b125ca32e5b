/** Report-wide footnote numbers, and the placeholders that stand for citations until the text is rendered. */
module Footnotes {
  import opened Text
  import opened Numerals
  import opened CitationGrammar

  type Numbers = map<Citation, nat>

  // ---------------------------------------------------------------- numbering

  function Note(m: Numbers, key: Citation): Numbers {
    if key in m then m else m[key := |m| + 1]
  }

  function NoteAll(m: Numbers, keys: seq<Citation>): Numbers {
    if keys == [] then m else Note(NoteAll(m, keys[..|keys| - 1]), keys[|keys| - 1])
  }

  /** The numbers are 1, 2, ... in the order of the list. */
  ghost predicate NumbersFollow(m: Numbers, order: seq<Citation>) {
    && AllDistinct(order)
    && |m| == |order|
    && (forall c :: c in m <==> c in order)
    && forall i :: 0 <= i < |order| ==> order[i] in m && m[order[i]] == i + 1
  }

  lemma NoteFollows(m: Numbers, order: seq<Citation>, key: Citation)
    requires NumbersFollow(m, order)
    ensures NumbersFollow(Note(m, key), if key in order then order else order + [key])
  {
    if key !in order {
      var order' := order + [key];
      forall i | 0 <= i < |order'| ensures order'[i] in Note(m, key) && Note(m, key)[order'[i]] == i + 1 {
        if i < |order| {
          assert order[i] in order && order'[i] != key;
        }
      }
    }
  }

  lemma NoteAllSnoc(m: Numbers, keys: seq<Citation>, key: Citation)
    ensures NoteAll(m, keys + [key]) == Note(NoteAll(m, keys), key)
  {
    hide Note;
    assert (keys + [key])[..|keys|] == keys;
  }

  /** Over everything processed so far the numbers are exactly 1..n, in order of first occurrence. */
  lemma {:induction false} FirstOccurrenceNumbers(keys: seq<Citation>)
    ensures NumbersFollow(NoteAll(map[], keys), FirstOccurrences(keys))
  {
    hide NumbersFollow, Note;
    if keys == [] {
      assert NumbersFollow(map[], []) by { NothingNumbered(); }
    } else {
      var n := |keys| - 1;
      FirstOccurrenceNumbers(keys[..n]);
      FirstOccurrencesDistinct(keys[..n]);
      NoteFollows(NoteAll(map[], keys[..n]), FirstOccurrences(keys[..n]), keys[n]);
      assert FirstOccurrences(keys[..n]) + [] == FirstOccurrences(keys[..n]);
    }
  }

  lemma NothingNumbered()
    ensures NumbersFollow(map[], [])
  {
  }

  /** A number, once given, never changes, whatever is processed later. */
  lemma {:induction false} NumbersStay(m: Numbers, keys: seq<Citation>)
    ensures forall c :: c in m ==> c in NoteAll(m, keys) && NoteAll(m, keys)[c] == m[c]
    ensures forall c :: c in keys ==> c in NoteAll(m, keys)
  {
    if keys != [] {
      var n := |keys| - 1;
      NumbersStay(m, keys[..n]);
      assert keys == keys[..n] + [keys[n]];
    }
  }

  lemma {:induction false} NoteAllConcat(m: Numbers, a: seq<Citation>, b: seq<Citation>)
    ensures NoteAll(m, a + b) == NoteAll(NoteAll(m, a), b)
  {
    hide Note;
    if b == [] {
      assert a + b == a;
    } else {
      var n := |b| - 1;
      assert a + b == (a + b[..n]) + [b[n]];
      NoteAllSnoc(m, a + b[..n], b[n]);
      NoteAllConcat(m, a, b[..n]);
    }
  }

  // ---------------------------------------------------------------- printed numbers

  /** A printed number names one citation. */
  lemma MarkerNamesCitation(keys: seq<Citation>, c: Citation, d: Citation)
    requires var m := NoteAll(map[], keys); c in m && d in m && Decimal(m[c]) == Decimal(m[d])
    ensures c == d
  {
    hide Decimal;
    var m, order := NoteAll(map[], keys), FirstOccurrences(keys);
    FirstOccurrenceNumbers(keys);
    DecimalInjective(m[c], m[d]);
    var i :| 0 <= i < |order| && order[i] == c;
    var j :| 0 <= j < |order| && order[j] == d;
  }

  // ---------------------------------------------------------------- placeholders

  // Content as the substitution sees it: characters, and the citations between them.
  datatype Piece = Plain(c: char) | Cited(cite: Citation)

  function Lex(s: string): seq<Piece>
    decreases |s|
  {
    if s == "" then [] else
    match MatchPrefix(REPORT, s)
    case Some(m) => [Cited(m.cite)] + Lex(s[m.length..])
    case None => [Plain(s[0])] + Lex(s[1..])
  }

  /** The trimmed citations of a content, in order. */
  function Keys(pieces: seq<Piece>): seq<Citation> {
    if pieces == [] then [] else KeyOf(pieces[0]) + Keys(pieces[1..])
  }

  function KeyOf(p: Piece): seq<Citation> {
    if p.Cited? then [Trim(p.cite)] else []
  }

  predicate AllNumbered(pieces: seq<Piece>, m: Numbers) {
    forall i :: 0 <= i < |pieces| && pieces[i].Cited? ==> Trim(pieces[i].cite) in m
  }

  function Placeholder(n: nat): string {
    "@@CITE" + Decimal(n) + "@@"
  }

  /** The content with every citation replaced by its placeholder. */
  function Substituted(pieces: seq<Piece>, m: Numbers): string
    requires AllNumbered(pieces, m)
  {
    if pieces == [] then "" else
    (match pieces[0] case Plain(c) => [c] case Cited(c) => Placeholder(m[Trim(c)])) + Substituted(pieces[1..], m)
  }

  class FootnoteTable {
    var numbers: Numbers

    constructor ()
      ensures numbers == map[]
    {
      numbers := map[];
    }

    method FootnoteNumber(cite: Citation) returns (n: nat)
      modifies this
      ensures numbers == Note(old(numbers), Trim(cite))
      ensures n == numbers[Trim(cite)]
    {
      var key := Trim(cite);
      if key !in numbers {
        numbers := numbers[key := |numbers| + 1];
      }
      n := numbers[key];
    }

    method CitationsToPlaceholders(content: string) returns (out: string)
      modifies this
      ensures numbers == NoteAll(old(numbers), Keys(Lex(content)))
      ensures AllNumbered(Lex(content), numbers) && out == Substituted(Lex(content), numbers)
    {
      hide Trim, Placeholder, MatchPrefix, Note, Lex, Keys, NoteAll, Substituted, AllNumbered;
      var rest := content;
      out := "";
      ghost var done: seq<Piece> := [];
      NothingDone(numbers);
      while rest != ""
        invariant Lex(content) == done + Lex(rest)
        invariant numbers == NoteAll(old(numbers), Keys(done))
        invariant AllNumbered(done, numbers) && out == Substituted(done, numbers)
        decreases |rest|
      {
        ghost var before := numbers;
        UnfoldLex(rest);
        match MatchPrefix(REPORT, rest)
        case Some(m) =>
          var n := FootnoteNumber(m.cite);
          out := out + Placeholder(n);
          DoneCited(done, old(numbers), before, m.cite);
          done := done + [Cited(m.cite)];
          rest := rest[m.length..];
        case None =>
          out := out + [rest[0]];
          DonePlain(done, old(numbers), before, rest[0]);
          done := done + [Plain(rest[0])];
          rest := rest[1..];
      }
      assert Lex("") == [] by { UnfoldLex(""); }
      assert done + [] == done;
    }
  }

  lemma UnfoldLex(s: string)
    ensures Lex(s) == if s == "" then [] else
      match MatchPrefix(REPORT, s)
      case Some(m) => [Cited(m.cite)] + Lex(s[m.length..])
      case None => [Plain(s[0])] + Lex(s[1..])
  {
  }

  lemma NothingDone(m: Numbers)
    ensures NoteAll(m, Keys([])) == m && AllNumbered([], m) && Substituted([], m) == ""
  {
  }

  lemma {:induction false} KeysSnoc(pieces: seq<Piece>, p: Piece)
    ensures Keys(pieces + [p]) == Keys(pieces) + KeyOf(p)
  {
    hide KeyOf;
    if pieces == [] {
      assert pieces + [p] == [p];
      assert [p][1..] == [];
    } else {
      assert (pieces + [p])[1..] == pieces[1..] + [p];
      KeysSnoc(pieces[1..], p);
    }
  }

  lemma {:induction false} SubstitutedSnoc(pieces: seq<Piece>, p: Piece, m: Numbers)
    requires AllNumbered(pieces, m) && (p.Cited? ==> Trim(p.cite) in m)
    ensures AllNumbered(pieces + [p], m)
    ensures Substituted(pieces + [p], m) == Substituted(pieces, m)
        + if p.Plain? then [p.c] else Placeholder(m[Trim(p.cite)])
  {
    hide Trim, Placeholder;
    if pieces == [] {
      assert [p][1..] == [];
      assert Substituted([], m) == "";
    } else {
      assert (pieces + [p])[1..] == pieces[1..] + [p];
      SubstitutedSnoc(pieces[1..], p, m);
    }
  }

  lemma {:induction false} SubstitutedLater(pieces: seq<Piece>, m: Numbers, m': Numbers)
    requires AllNumbered(pieces, m) && forall c :: c in m ==> c in m' && m'[c] == m[c]
    ensures AllNumbered(pieces, m') && Substituted(pieces, m') == Substituted(pieces, m)
  {
    hide Trim, Placeholder;
    if pieces != [] {
      assert AllNumbered(pieces[1..], m);
      SubstitutedLater(pieces[1..], m, m');
    }
  }

  lemma NoteKeeps(m: Numbers, key: Citation)
    ensures key in Note(m, key) && forall c :: c in m ==> c in Note(m, key) && Note(m, key)[c] == m[c]
  {
  }

  lemma DoneCited(done: seq<Piece>, start: Numbers, m: Numbers, cite: Citation)
    requires m == NoteAll(start, Keys(done)) && AllNumbered(done, m)
    ensures var m' := Note(m, Trim(cite)); var done' := done + [Cited(cite)];
      && Trim(cite) in m'
      && m' == NoteAll(start, Keys(done')) && AllNumbered(done', m')
      && Substituted(done', m') == Substituted(done, m) + Placeholder(m'[Trim(cite)])
  {
    hide Trim, Note, NoteAll, Keys, Substituted, Placeholder, AllNumbered;
    var m' := Note(m, Trim(cite));
    NoteKeeps(m, Trim(cite));
    KeysSnoc(done, Cited(cite));
    NoteAllSnoc(start, Keys(done), Trim(cite));
    SubstitutedLater(done, m, m');
    SubstitutedSnoc(done, Cited(cite), m');
  }

  lemma DonePlain(done: seq<Piece>, start: Numbers, m: Numbers, c: char)
    requires m == NoteAll(start, Keys(done)) && AllNumbered(done, m)
    ensures var done' := done + [Plain(c)];
      && m == NoteAll(start, Keys(done')) && AllNumbered(done', m)
      && Substituted(done', m) == Substituted(done, m) + [c]
  {
    hide NoteAll, Keys, Substituted, AllNumbered;
    KeysSnoc(done, Plain(c));
    assert Keys(done) + [] == Keys(done);
    SubstitutedSnoc(done, Plain(c), m);
  }

  /** The citations the substitution replaces are those a scan of the content finds. */
  lemma {:induction false} KeysAreFound(s: string, base: nat)
    ensures var found := FindAll(REPORT, s, base);
      Keys(Lex(s)) == seq(|found|, i requires 0 <= i < |found| => Trim(found[i].cite))
    decreases |s|
  {
    hide MatchPrefix, Trim;
    if s != "" {
      var k := match MatchPrefix(REPORT, s) case Some(m) => m.length case None => 1;
      KeysAreFound(s[k..], base + k);
    }
  }
}
