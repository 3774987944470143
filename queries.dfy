/**
 * The query scoper of the recipe list (`RecipeViewSet.get_queryset`,
 * recipe_app_backend/api/views.py): narrow the newest-first recipe sequence by an
 * optional case-insensitive title substring and then by an optional author, given
 * as a username (case-insensitive) or as a numeric id.
 */
module Queries {
  import opened Common
  import opened Models
  import Text

  /** A query parameter is in effect only when present and non-empty. */
  predicate Given(p: Option<string>)
  {
    p.Some? && p.value != []
  }

  /** `title__icontains`. */
  predicate TitleMatches(r: Recipe, title: string)
  {
    Text.ContainsIgnoringCase(r.title, title)
  }

  /**
   * `author__username__iexact` OR `author__id__iexact`: the author's username equals
   * the parameter ignoring case, or the author's id, written in decimal, equals it.
   * `names` maps user ids to usernames.
   */
  predicate AuthorMatches(r: Recipe, names: map<UserId, string>, author: string)
  {
    (r.authorId in names && Text.EqualsIgnoringCase(names[r.authorId], author))
    || Text.EqualsIgnoringCase(Text.NatToDecimal(r.authorId), author)
  }

  /** The recipes of `rs` whose title matches, in their original order. */
  function FilterTitle(rs: seq<Recipe>, title: string): seq<Recipe>
  {
    if rs == [] then []
    else if TitleMatches(rs[0], title) then [rs[0]] + FilterTitle(rs[1..], title)
    else FilterTitle(rs[1..], title)
  }

  /** The recipes of `rs` whose author matches, in their original order. */
  function FilterAuthor(rs: seq<Recipe>, names: map<UserId, string>, author: string): seq<Recipe>
  {
    if rs == [] then []
    else if AuthorMatches(rs[0], names, author) then [rs[0]] + FilterAuthor(rs[1..], names, author)
    else FilterAuthor(rs[1..], names, author)
  }

  /** The scoped queryset: the title filter if given, then the author filter if given. */
  function Scope(rs: seq<Recipe>, names: map<UserId, string>, title: Option<string>, author: Option<string>): seq<Recipe>
  {
    var byTitle := if Given(title) then FilterTitle(rs, title.value) else rs;
    if Given(author) then FilterAuthor(byTitle, names, author.value) else byTitle
  }

  /** The combined condition: every given filter matches. */
  predicate Matches(r: Recipe, names: map<UserId, string>, title: Option<string>, author: Option<string>)
  {
    (Given(title) ==> TitleMatches(r, title.value)) && (Given(author) ==> AuthorMatches(r, names, author.value))
  }

  /** `a` is `b` with some elements left out and the rest in the same order. */
  predicate IsSubsequence(a: seq<Recipe>, b: seq<Recipe>)
    decreases |b|
  {
    if a == [] then true
    else if b == [] then false
    else (a[0] == b[0] && IsSubsequence(a[1..], b[1..])) || IsSubsequence(a, b[1..])
  }

  lemma {:induction false} SubsequenceMembers(a: seq<Recipe>, b: seq<Recipe>, x: Recipe)
    requires IsSubsequence(a, b) && x in a
    ensures x in b
    decreases |b|
  {
    if a[0] == b[0] && IsSubsequence(a[1..], b[1..]) {
      if x != a[0] {
        SubsequenceMembers(a[1..], b[1..], x);
      }
    } else {
      SubsequenceMembers(a, b[1..], x);
    }
  }

  lemma {:induction false} SubsequenceReflexive(a: seq<Recipe>)
    ensures IsSubsequence(a, a)
    decreases |a|
  {
    if a != [] {
      SubsequenceReflexive(a[1..]);
    }
  }

  lemma {:induction false} SubsequenceTransitive(a: seq<Recipe>, b: seq<Recipe>, c: seq<Recipe>)
    requires IsSubsequence(a, b) && IsSubsequence(b, c)
    ensures IsSubsequence(a, c)
    decreases |c|
  {
    if a != [] {
      if b[0] == c[0] && IsSubsequence(b[1..], c[1..]) {
        if a[0] == b[0] && IsSubsequence(a[1..], b[1..]) {
          SubsequenceTransitive(a[1..], b[1..], c[1..]);
        } else {
          SubsequenceTransitive(a, b[1..], c[1..]);
        }
      } else {
        SubsequenceTransitive(a, b, c[1..]);
      }
    }
  }

  /** An order-preserving selection of a newest-first sequence is newest first. */
  lemma {:induction false} SubsequenceNewestFirst(a: seq<Recipe>, b: seq<Recipe>)
    requires IsSubsequence(a, b) && NewestFirst(b)
    ensures NewestFirst(a)
    decreases |b|
  {
    if a != [] {
      assert NewestFirst(b[1..]);
      if a[0] == b[0] && IsSubsequence(a[1..], b[1..]) {
        SubsequenceNewestFirst(a[1..], b[1..]);
        forall j | 0 < j < |a|
          ensures a[0].createdAt >= a[j].createdAt
        {
          SubsequenceMembers(a[1..], b[1..], a[j]);
        }
      } else {
        SubsequenceNewestFirst(a, b[1..]);
      }
    }
  }

  /** The title filter keeps exactly the matching recipes, as an order-preserving selection. */
  lemma {:induction false} FilterTitleSpec(rs: seq<Recipe>, title: string)
    ensures IsSubsequence(FilterTitle(rs, title), rs)
    ensures forall x :: x in FilterTitle(rs, title) <==> x in rs && TitleMatches(x, title)
  {
    if rs != [] {
      FilterTitleSpec(rs[1..], title);
    }
  }

  /** The author filter keeps exactly the matching recipes, as an order-preserving selection. */
  lemma {:induction false} FilterAuthorSpec(rs: seq<Recipe>, names: map<UserId, string>, author: string)
    ensures IsSubsequence(FilterAuthor(rs, names, author), rs)
    ensures forall x :: x in FilterAuthor(rs, names, author) <==> x in rs && AuthorMatches(x, names, author)
  {
    if rs != [] {
      FilterAuthorSpec(rs[1..], names, author);
    }
  }

  /** A title filter that every recipe already passes changes nothing. */
  lemma {:induction false} FilterTitleKeepsAll(rs: seq<Recipe>, title: string)
    requires forall x :: x in rs ==> TitleMatches(x, title)
    ensures FilterTitle(rs, title) == rs
  {
    if rs != [] {
      FilterTitleKeepsAll(rs[1..], title);
    }
  }

  /** An author filter that every recipe already passes changes nothing. */
  lemma {:induction false} FilterAuthorKeepsAll(rs: seq<Recipe>, names: map<UserId, string>, author: string)
    requires forall x :: x in rs ==> AuthorMatches(x, names, author)
    ensures FilterAuthor(rs, names, author) == rs
  {
    if rs != [] {
      FilterAuthorKeepsAll(rs[1..], names, author);
    }
  }

  /**
   * The scoped list holds exactly the recipes of the base list that satisfy every
   * given filter (the two filters combine by AND), and it keeps their order.
   */
  lemma ScopeSpec(rs: seq<Recipe>, names: map<UserId, string>, title: Option<string>, author: Option<string>)
    ensures IsSubsequence(Scope(rs, names, title, author), rs)
    ensures forall x :: x in Scope(rs, names, title, author) <==> x in rs && Matches(x, names, title, author)
  {
    var byTitle := if Given(title) then FilterTitle(rs, title.value) else rs;
    if Given(title) {
      FilterTitleSpec(rs, title.value);
    } else {
      SubsequenceReflexive(rs);
    }
    if Given(author) {
      FilterAuthorSpec(byTitle, names, author.value);
      SubsequenceTransitive(Scope(rs, names, title, author), byTitle, rs);
    }
  }

  /** With no filter in effect (absent or empty parameters) the base list passes through unchanged. */
  lemma ScopeNoFilters(rs: seq<Recipe>, names: map<UserId, string>, title: Option<string>, author: Option<string>)
    requires !Given(title) && !Given(author)
    ensures Scope(rs, names, title, author) == rs
  {
  }

  /** Scoping a newest-first list gives a newest-first list. */
  lemma ScopeNewestFirst(rs: seq<Recipe>, names: map<UserId, string>, title: Option<string>, author: Option<string>)
    requires NewestFirst(rs)
    ensures NewestFirst(Scope(rs, names, title, author))
  {
    ScopeSpec(rs, names, title, author);
    SubsequenceNewestFirst(Scope(rs, names, title, author), rs);
  }

  /** Scoping again with the same parameters changes nothing. */
  lemma ScopeIdempotent(rs: seq<Recipe>, names: map<UserId, string>, title: Option<string>, author: Option<string>)
    ensures Scope(Scope(rs, names, title, author), names, title, author) == Scope(rs, names, title, author)
  {
    var s := Scope(rs, names, title, author);
    ScopeSpec(rs, names, title, author);
    if Given(title) {
      FilterTitleKeepsAll(s, title.value);
    }
    if Given(author) {
      FilterAuthorKeepsAll(s, names, author.value);
    }
  }

  /** The title parameter "pan" keeps a recipe titled "Pancakes". */
  lemma PanMatchesPancakes(r: Recipe)
    requires r.title == "Pancakes"
    ensures TitleMatches(r, "pan")
  {
    var t := Text.LowerStr(r.title);
    var p := Text.LowerStr("pan");
    assert t[0] == 'p' && t[1] == 'a' && t[2] == 'n';
    assert p[0] == 'p' && p[1] == 'a' && p[2] == 'n';
    assert t[..|p|] == p;
  }

  /**
   * The author parameter matches by username ignoring case, or by the id written in
   * decimal: "ALICE" and "7" both select the recipes of user 7 named "alice".
   */
  lemma AuthorByNameOrId(r: Recipe, names: map<UserId, string>)
    requires r.authorId == 7 && names == map[7 := "alice"]
    ensures AuthorMatches(r, names, "ALICE")
    ensures AuthorMatches(r, names, "7")
    ensures !AuthorMatches(r, names, "bob")
  {
    assert Text.LowerStr("ALICE") == "alice" == Text.LowerStr("alice");
    assert Text.NatToDecimal(7) == "7";
    assert Text.LowerStr("bob") == "bob";
    assert Text.LowerStr("7") == "7";
  }
}
