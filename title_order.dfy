/** The order in which the note list is kept: titles compared without regard
    to letter case. The renderer compares with `localeCompare` at base
    sensitivity and the store orders with `COLLATE NOCASE`; both are modelled
    as lexicographic order on titles whose ASCII capitals are folded to lower
    case. */
module TitleOrder {

  /** ASCII lower-casing of one character. */
  function Fold(c: char): char {
    if 'A' <= c <= 'Z' then (c as int + 32) as char else c
  }

  /** The key a title is compared by: the title with every capital folded.
      Two titles compare equal exactly when their keys are equal. */
  function Key(title: string): string {
    if title == [] then [] else [Fold(title[0])] + Key(title[1..])
  }

  /** `a` sorts no later than `b` when case is ignored: lexicographic order
      on folded characters, a prefix first. */
  predicate TitleLe(a: string, b: string) {
    if a == [] then true
    else if b == [] then false
    else if Fold(a[0]) < Fold(b[0]) then true
    else if Fold(a[0]) == Fold(b[0]) then TitleLe(a[1..], b[1..])
    else false
  }

  lemma {:induction false} TitleLeTotal(a: string, b: string)
    ensures TitleLe(a, b) || TitleLe(b, a)
  {
    if a != [] && b != [] && Fold(a[0]) == Fold(b[0]) {
      TitleLeTotal(a[1..], b[1..]);
    }
  }

  lemma {:induction false} TitleLeTransitive(a: string, b: string, c: string)
    requires TitleLe(a, b) && TitleLe(b, c)
    ensures TitleLe(a, c)
  {
    if a != [] && b != [] && c != [] && Fold(a[0]) == Fold(b[0]) && Fold(b[0]) == Fold(c[0]) {
      TitleLeTransitive(a[1..], b[1..], c[1..]);
    }
  }

  /** Titles with the same key compare equal. */
  lemma {:induction false} SameKeyTitleLe(a: string, b: string)
    requires Key(a) == Key(b)
    ensures TitleLe(a, b)
  {
    if a != [] && b != [] {
      assert Key(a)[0] == Fold(a[0]) && Key(b)[0] == Fold(b[0]);
      assert Key(a)[1..] == Key(a[1..]) && Key(b)[1..] == Key(b[1..]);
      SameKeyTitleLe(a[1..], b[1..]);
    }
  }

  /** Titles that compare equal have the same key. */
  lemma {:induction false} TitleLeBothWaysSameKey(a: string, b: string)
    requires TitleLe(a, b) && TitleLe(b, a)
    ensures Key(a) == Key(b)
  {
    if a != [] && b != [] {
      TitleLeBothWaysSameKey(a[1..], b[1..]);
    }
  }

  /** Two titles compare equal (each sorts no later than the other) exactly
      when they agree once case is folded. */
  lemma TitleTie(a: string, b: string)
    ensures (TitleLe(a, b) && TitleLe(b, a)) <==> Key(a) == Key(b)
  {
    if TitleLe(a, b) && TitleLe(b, a) {
      TitleLeBothWaysSameKey(a, b);
    }
    if Key(a) == Key(b) {
      SameKeyTitleLe(a, b);
      SameKeyTitleLe(b, a);
    }
  }

  /** Titles that differ only in letter case fold to the same key. */
  lemma {:induction false} KeyIgnoresCase(a: string, b: string)
    requires |a| == |b|
    requires forall i :: 0 <= i < |a| ==> Fold(a[i]) == Fold(b[i])
    ensures Key(a) == Key(b)
  {
    if a != [] {
      KeyIgnoresCase(a[1..], b[1..]);
    }
  }
}
