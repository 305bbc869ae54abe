/** Selector-by-selector behaviour of `dePseudify`, following the table in
    tests/depseudify.js: each row of that table is stated for every
    colon-free text around its pseudo-classes.

    The general steps come first; the one-line facts about the table's
    entries are kept in lemmas of their own. */
module PseudoExamples {
  import opened Text
  import opened Pseudo

  // ---------------------------------------------------------------------
  // General steps

  lemma ColonFreeKept(s: string)
    requires ':' !in s
    ensures DePseudify(s) == s
  {
    StripNoColon(Current, s);
  }

  /** Colon-free text in front passes through unchanged. */
  lemma Through(p: string, s: string)
    requires ':' !in p
    ensures DePseudify(p + s) == p + DePseudify(s)
  {
    StripColonFreePrefix(Current, p, s);
  }

  /** A colon followed by a character no listed token has second is kept. */
  lemma KeepColon(rest: string)
    requires |rest| > 0 && !SecondOfToken(rest[0])
    ensures DePseudify(":" + rest) == ":" + DePseudify(rest)
  {
    var s := ":" + rest;
    assert s[1] == rest[0] && s[1..] == rest;
    NoTokenAfterColon(s);
    StripKeep(Current, s);
  }

  /** The `j`-th literal at the front is deleted when every earlier literal
      differs from it at position `d`. */
  lemma DropFront(tok: string, rest: string, j: nat, d: nat, c: char)
    requires j < |Current.literals| && Current.literals[j] == tok
    requires d < |tok| && tok[0] == ':' && tok[d] == c
    requires DiffersAt(Current.literals, j, d, c)
    ensures DePseudify(tok + rest) == DePseudify(rest)
  {
    var s := tok + rest;
    assert StartsWith(s, tok) && s[0] == ':' && s[d] == c;
    LiteralMatchAt(Current.literals, s, j, d);
    StripDrop(Current, s, |tok|);
    assert s[|tok|..] == rest;
  }

  // ---------------------------------------------------------------------
  // Pseudo-elements

  lemma BeforeIs18()
    ensures Current.literals[18] == ":before"
  {
  }

  lemma BeforeFirst()
    ensures DiffersAt(Current.literals, 18, 1, 'b')
  {
  }

  lemma DoubleBeforeIs15()
    ensures Current.literals[15] == "::before"
  {
  }

  lemma DoubleBeforeFirst()
    ensures DiffersAt(Current.literals, 15, 2, 'b')
  {
  }

  /** A leading `:before` is deleted. */
  lemma BeforeFront(rest: string)
    ensures DePseudify(":before" + rest) == DePseudify(rest)
  {
    BeforeIs18();
    BeforeFirst();
    DropFront(":before", rest, 18, 1, 'b');
  }

  /** A leading `::before` is deleted. */
  lemma DoubleBeforeFront(rest: string)
    ensures DePseudify("::before" + rest) == DePseudify(rest)
  {
    DoubleBeforeIs15();
    DoubleBeforeFirst();
    DropFront("::before", rest, 15, 2, 'b');
  }

  /** `.clearfix:before` and `.clearfix::before` both become `.clearfix`,
      whatever the colon-free text in front. */
  lemma PseudoElementDropped(p: string)
    requires ':' !in p
    ensures DePseudify(p + ":before") == p
    ensures DePseudify(p + "::before") == p
  {
    ColonFreeKept("");
    assert p + "" == p;
    Through(p, ":before");
    BeforeFront("");
    assert ":before" + "" == ":before";
    Through(p, "::before");
    DoubleBeforeFront("");
    assert "::before" + "" == "::before";
  }

  // ---------------------------------------------------------------------
  // Dynamic pseudo-classes

  lemma HoverIs2()
    ensures Current.literals[2] == ":hover"
  {
  }

  lemma HoverFirst()
    ensures DiffersAt(Current.literals, 2, 1, 'h')
  {
  }

  /** A leading `:hover` is deleted. */
  lemma HoverFront(rest: string)
    ensures DePseudify(":hover" + rest) == DePseudify(rest)
  {
    HoverIs2();
    HoverFirst();
    DropFront(":hover", rest, 2, 1, 'h');
  }

  /** `a:hover` is matched by the element `a`: a dynamic pseudo-class
      between colon-free texts goes. */
  lemma HoverDropped(p: string, q: string)
    requires ':' !in p && ':' !in q
    ensures DePseudify(p + ":hover" + q) == p + q
  {
    assert p + ":hover" + q == p + (":hover" + q);
    Through(p, ":hover" + q);
    HoverFront(q);
    ColonFreeKept(q);
  }

  lemma CheckedIs7()
    ensures Current.literals[7] == ":checked"
  {
  }

  lemma CheckedFirst()
    ensures DiffersAt(Current.literals, 7, 1, 'c')
  {
  }

  /** A leading `:checked` is deleted. */
  lemma CheckedFront(rest: string)
    ensures DePseudify(":checked" + rest) == DePseudify(rest)
  {
    CheckedIs7();
    CheckedFirst();
    DropFront(":checked", rest, 7, 1, 'c');
  }

  /** `input:checked ~ label:before` becomes `input ~ label`: both the state
      and the pseudo-element go. */
  lemma CheckedSibling(p: string, q: string)
    requires ':' !in p && ':' !in q
    ensures DePseudify(p + ":checked" + q + ":before") == p + q
  {
    assert p + ":checked" + q + ":before" == p + (":checked" + (q + ":before"));
    Through(p, ":checked" + (q + ":before"));
    CheckedFront(q + ":before");
    PseudoElementDropped(q);
  }

  // ---------------------------------------------------------------------
  // Pseudo-classes that are not in the table

  /** The negation `:not(x)`. */
  function Not(x: string): string {
    ":not(" + x + ")"
  }

  lemma NotName(x: string)
    requires ':' !in x
    ensures var inner := "not(" + x + ")"; inner[0] == 'n' && ':' !in inner
  {
  }

  lemma NotJoin(x: string, r: string)
    ensures Not(x) + r == ":" + ("not(" + x + ")" + r)
  {
  }

  /** A `:not` pseudo-class is not in the table: it is kept, and what
      follows it is read on. */
  lemma NotKept(x: string, rest: string)
    requires ':' !in x
    ensures DePseudify(Not(x) + rest) == Not(x) + DePseudify(rest)
  {
    var inner := "not(" + x + ")";
    NotName(x);
    NotJoin(x, rest);
    KeepColon(inner + rest);
    Through(inner, rest);
    NotJoin(x, DePseudify(rest));
  }

  /** Two negations in a row are both kept. */
  lemma NotsKept(x: string, y: string)
    requires ':' !in x && ':' !in y
    ensures DePseudify(Not(x) + Not(y)) == Not(x) + Not(y)
  {
    NotKept(x, Not(y));
    NotKept(y, "");
    ColonFreeKept("");
    assert Not(y) + "" == Not(y);
  }

  lemma HoverNotJoin(p: string, x: string, y: string)
    ensures p + ":hover " + Not(x) + Not(y) == p + (":hover" + (" " + (Not(x) + Not(y))))
    ensures p + (" " + (Not(x) + Not(y))) == p + " " + Not(x) + Not(y)
  {
  }

  /** `a:hover :not(strong):not(span)` becomes `a :not(strong):not(span)`:
      the dynamic pseudo-class goes, the negations stay. */
  lemma HoverBeforeNot(p: string, x: string, y: string)
    requires ':' !in p && ':' !in x && ':' !in y
    ensures DePseudify(p + ":hover " + Not(x) + Not(y)) == p + " " + Not(x) + Not(y)
  {
    var nots := Not(x) + Not(y);
    HoverNotJoin(p, x, y);
    Through(p, ":hover" + (" " + nots));
    HoverFront(" " + nots);
    Through(" ", nots);
    NotsKept(x, y);
  }

  /** A colon is kept, with the colon-free text after it, when the
      character after it is not the second of any listed token. */
  lemma KeepColonFree(p: string, name: string)
    requires ':' !in p && ':' !in name
    requires |name| > 0 && !SecondOfToken(name[0])
    ensures DePseudify(p + ":" + name) == p + ":" + name
  {
    assert p + ":" + name == p + (":" + name);
    Through(p, ":" + name);
    KeepColon(name);
    ColonFreeKept(name);
  }

  /** Structural pseudo-classes are not in the table: `li:only-child` is
      returned unchanged. */
  lemma OnlyChild(p: string)
    requires ':' !in p
    ensures DePseudify(p + ":only-child") == p + ":only-child"
  {
    KeepColonFree(p, "only-child");
    assert p + ":" + "only-child" == p + ":only-child";
  }

  lemma NthChildName(x: string)
    requires ':' !in x
    ensures var name := "nth-child(" + x + ")"; name[0] == 'n' && ':' !in name
  {
  }

  lemma NthChildJoin(p: string, x: string)
    ensures p + ":" + ("nth-child(" + x + ")") == p + ":nth-child(" + x + ")"
  {
  }

  /** `a:nth-child(4n)` is returned unchanged. */
  lemma NthChild(p: string, x: string)
    requires ':' !in p && ':' !in x
    ensures DePseudify(p + ":nth-child(" + x + ")") == p + ":nth-child(" + x + ")"
  {
    NthChildName(x);
    KeepColonFree(p, "nth-child(" + x + ")");
    NthChildJoin(p, x);
  }

  /** No listed literal starts `:root`: the one that begins `:r` goes on
      with `e`. */
  lemma RootNoLiteral(q: string)
    ensures forall i :: 0 <= i < |Current.literals| ==> !StartsWith(":root" + q, Current.literals[i])
  {
    var s := ":root" + q;
    assert s[1] == 'r' && s[2] == 'o';
    forall i | 0 <= i < |Current.literals|
      ensures !StartsWith(s, Current.literals[i])
    {
      if i != 9 {
        assert Current.literals[i][1] != 'r';
      } else {
        assert Current.literals[i][2] != 'o';
      }
    }
  }

  lemma RootTail(q: string)
    requires ':' !in q
    ensures var s := ":root" + q; s[1] == 'r' && s[1..] == "root" + q && ':' !in s[1..]
  {
  }

  /** A leading `:root` is kept although `:required` shares its first two
      characters. */
  lemma RootFront(q: string)
    requires ':' !in q
    ensures DePseudify(":root" + q) == ":root" + q
  {
    var s := ":root" + q;
    RootNoLiteral(q);
    RootTail(q);
    LiteralMatchNone(Current.literals, s);
    StripKeep(Current, s);
    ColonFreeKept(s[1..]);
    assert [s[0]] + s[1..] == s;
  }

  /** `:root` is kept wherever it stands between colon-free texts. */
  lemma RootKept(p: string, q: string)
    requires ':' !in p && ':' !in q
    ensures DePseudify(p + ":root" + q) == p + ":root" + q
  {
    assert p + ":root" + q == p + (":root" + q);
    Through(p, ":root" + q);
    RootFront(q);
  }

  // ---------------------------------------------------------------------
  // Not idempotent

  /** No listed literal starts `:ho:`: the one that begins `:h` goes on
      with `v`. */
  lemma BrokenHoverNoLiteral(rest: string)
    requires |rest| > 0 && rest[0] == ':'
    ensures forall i :: 0 <= i < |Current.literals| ==> !StartsWith(":ho" + rest, Current.literals[i])
  {
    var s := ":ho" + rest;
    assert s[1] == 'h' && s[3] == ':';
    forall i | 0 <= i < |Current.literals|
      ensures !StartsWith(s, Current.literals[i])
    {
      if i != 2 {
        assert Current.literals[i][1] != 'h';
      } else {
        assert Current.literals[i][3] != ':';
      }
    }
  }

  lemma BrokenHoverTail(rest: string)
    requires |rest| > 0 && rest[0] == ':'
    ensures var s := ":ho" + rest; s[1] == 'h' && s[1..] == "ho" + rest
  {
  }

  /** The colon of a leading `:ho:` starts no token and is kept. */
  lemma BrokenHoverFront(rest: string)
    requires |rest| > 0 && rest[0] == ':'
    ensures DePseudify(":ho" + rest) == ":" + DePseudify("ho" + rest)
  {
    var s := ":ho" + rest;
    BrokenHoverNoLiteral(rest);
    BrokenHoverTail(rest);
    LiteralMatchNone(Current.literals, s);
    StripKeep(Current, s);
  }

  lemma BrokenHoverJoin(q: string)
    ensures ":ho" + ":hover" + "ver" + q == ":ho" + (":hover" + ("ver" + q))
    ensures ":" + ("ho" + ("ver" + q)) == ":hover" + q
  {
  }

  /** Deleting `:hover` from `:ho:hoverver` leaves `:hover`. */
  lemma BrokenHoverOnce(q: string)
    requires ':' !in q
    ensures DePseudify(":ho" + ":hover" + "ver" + q) == ":hover" + q
  {
    var tail := "ver" + q;
    BrokenHoverJoin(q);
    BrokenHoverFront(":hover" + tail);
    Through("ho", ":hover" + tail);
    HoverFront(tail);
    ColonFreeKept(tail);
  }

  /** Deleting a token can bring two halves of another together, so the
      normaliser is not idempotent: `:ho:hoverver` becomes `:hover`, which
      becomes the empty string (here with any colon-free text after it). */
  lemma NotIdempotent(q: string)
    requires ':' !in q
    ensures DePseudify(":ho" + ":hover" + "ver" + q) == ":hover" + q
    ensures DePseudify(DePseudify(":ho" + ":hover" + "ver" + q)) == q
  {
    BrokenHoverOnce(q);
    HoverFront(q);
    ColonFreeKept(q);
  }

  /** `:after`, the last listed literal, is deleted at the front: every
      earlier literal differs from it within its first three characters. */
  lemma AfterFront(rest: string)
    ensures DePseudify(":after" + rest) == DePseudify(rest)
  {
    var s := ":after" + rest;
    assert s[..6] == ":after" && s[1] == 'a' && s[2] == 'f';
    forall i | 0 <= i < 19
      ensures !StartsWith(s, Current.literals[i])
    {
      var lit := Current.literals[i];
      if |lit| <= |s| {
        assert s[..|lit|][1] == s[1] && s[..|lit|][2] == s[2];
      }
    }
    StripLiteral(Current, s, 19);
    assert s[6..] == rest;
  }
}
