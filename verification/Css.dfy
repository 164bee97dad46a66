/**
 CSS classes of HTML documents and the Tailwind directive that lists them (cssutil/cssutil.go).
 A document is the tree html.Parse returns, or None where it returns an error.
 */
module Css {
  import opened Common

  datatype Attr = Attr(key: string, val: string)

  datatype Node = Node(isElement: bool, attrs: seq<Attr>, children: seq<Node>)

  /** unicode.IsSpace. */
  predicate IsSpace(c: char) {
    || '\t' <= c <= '\r' || c == ' ' || c == '\U{0085}' || c == '\U{00A0}' || c == '\U{1680}'
    || '\U{2000}' <= c <= '\U{200A}' || c == '\U{2028}' || c == '\U{2029}' || c == '\U{202F}'
    || c == '\U{205F}' || c == '\U{3000}'
  }

  /** The white space characters of Unicode. */
  const SPACES: string :=
    "\t\n\U{000B}\U{000C}\r \U{0085}\U{00A0}\U{1680}\U{2000}\U{2001}\U{2002}\U{2003}\U{2004}\U{2005}" +
    "\U{2006}\U{2007}\U{2008}\U{2009}\U{200A}\U{2028}\U{2029}\U{202F}\U{205F}\U{3000}"

  lemma SpacesListed(c: char)
    ensures IsSpace(c) <==> c in SPACES
  {
  }

  predicate IsToken(s: string) {
    s != "" && forall c | c in s :: !IsSpace(c)
  }

  function Flush(token: string): seq<string> {
    if token == "" then [] else [token]
  }

  /** strings.Fields of `token + s`, where `token` has no space. */
  function FieldsFrom(token: string, s: string): seq<string>
    decreases |s|
  {
    if s == "" then Flush(token)
    else if IsSpace(s[0]) then Flush(token) + FieldsFrom("", s[1..])
    else FieldsFrom(token + [s[0]], s[1..])
  }

  function Fields(s: string): seq<string> {
    FieldsFrom("", s)
  }

  lemma {:induction false} FieldsAreTokens(token: string, s: string)
    requires token == "" || IsToken(token)
    ensures forall f | f in FieldsFrom(token, s) :: IsToken(f)
    decreases |s|
  {
    if s != "" {
      if IsSpace(s[0]) {
        FieldsAreTokens("", s[1..]);
      } else {
        FieldsAreTokens(token + [s[0]], s[1..]);
      }
    }
  }

  /** Fields splits at every white space, and a token is one field. */
  lemma FieldsSplit(s: string, c: char, t: string)
    requires IsSpace(c)
    ensures Fields(s + [c] + t) == Fields(s) + Fields(t)
  {
    FieldsFromSplit("", s, c, t);
  }

  lemma {:induction false} FieldsFromSplit(token: string, s: string, c: char, t: string)
    requires IsSpace(c)
    ensures FieldsFrom(token, s + [c] + t) == FieldsFrom(token, s) + Fields(t)
    decreases |s|
  {
    var all := s + [c] + t;
    if s == "" {
      assert all[1..] == t;
    } else {
      assert all[1..] == s[1..] + [c] + t;
      FieldsFromSplit(if IsSpace(s[0]) then "" else token + [s[0]], s[1..], c, t);
      AppendAssociative(Flush(token), FieldsFrom("", s[1..]), Fields(t));
    }
  }

  /** The class tokens that a list of attributes carries. */
  function AttrClasses(attrs: seq<Attr>): set<string> {
    if attrs == [] then {}
    else AttrClasses(attrs[..|attrs| - 1]) + TokensOf(attrs[|attrs| - 1])
  }

  function TokensOf(a: Attr): set<string> {
    if a.key == "class" then set c | c in Fields(a.val) else {}
  }

  function OwnClasses(n: Node): set<string> {
    if n.isElement then AttrClasses(n.attrs) else {}
  }

  /** The class tokens on element nodes anywhere in a forest. */
  function ForestClasses(forest: seq<Node>): set<string> {
    if forest == [] then {}
    else
      var last := forest[|forest| - 1];
      ForestClasses(forest[..|forest| - 1]) + OwnClasses(last) + ForestClasses(last.children)
  }

  /** Only the class attributes of elements count, wherever they are in the tree. */
  lemma ClassAttribute(isElement: bool, key: string, val: string, inner: Node)
    ensures ForestClasses([Node(isElement, [Attr(key, val)], [inner])])
         == (if isElement && key == "class" then set c | c in Fields(val) else {}) + ForestClasses([inner])
  {
    var attrs, n := [Attr(key, val)], Node(isElement, [Attr(key, val)], [inner]);
    assert attrs[..0] == [] && AttrClasses([]) == {};
    assert [n][..0] == [] && ForestClasses([]) == {};
  }

  function ForestSize(forest: seq<Node>): nat {
    if forest == [] then 0
    else ForestSize(forest[..|forest| - 1]) + 1 + ForestSize(forest[|forest| - 1].children)
  }

  lemma {:induction false} ForestAppend(a: seq<Node>, b: seq<Node>)
    ensures ForestClasses(a + b) == ForestClasses(a) + ForestClasses(b)
    ensures ForestSize(a + b) == ForestSize(a) + ForestSize(b)
    decreases |b|
  {
    if b == [] {
      assert a + b == a;
    } else {
      var n := |b| - 1;
      ForestAppend(a, b[..n]);
      assert (a + b)[..|a + b| - 1] == a + b[..n];
    }
  }

  /** Byte order on strings, as slices.Sort uses it: for UTF-8 this is code point order. */
  predicate Less(a: string, b: string) {
    b != "" && (a == "" || a[0] < b[0] || (a[0] == b[0] && Less(a[1..], b[1..])))
  }

  /** The first position at which two strings differ decides; a proper prefix comes first. */
  lemma {:induction false} LessExactly(a: string, b: string)
    ensures Less(a, b) <==>
              exists k | 0 <= k < |b| :: k <= |a| && a[..k] == b[..k] && (k < |a| ==> a[k] < b[k])
  {
    if b != "" {
      if a == "" || a[0] < b[0] {
        assert a[..0] == b[..0];
      } else {
        LessExactly(a[1..], b[1..]);
        if Less(a, b) {
          var a', b' := a[1..], b[1..];
          var k :| 0 <= k < |b'| && k <= |a'| && a'[..k] == b'[..k] && (k < |a'| ==> a'[k] < b'[k]);
          assert a[..k + 1] == [a[0]] + a'[..k] && b[..k + 1] == [b[0]] + b'[..k];
        }
        if k :| 0 <= k < |b| && k <= |a| && a[..k] == b[..k] && (k < |a| ==> a[k] < b[k]) {
          DifferLater(a, b, k);
        }
      }
    }
  }

  lemma DifferLater(a: string, b: string, k: nat)
    requires a != "" && b != "" && a[0] >= b[0]
    requires k < |b| && k <= |a| && a[..k] == b[..k] && (k < |a| ==> a[k] < b[k])
    ensures k > 0 && a[0] == b[0] && a[1..][..k - 1] == b[1..][..k - 1]
  {
    assert a[..k][0] == a[0] && b[..k][0] == b[0];
    assert a[1..][..k - 1] == a[..k][1..] && b[1..][..k - 1] == b[..k][1..];
  }

  lemma {:induction false} LessTotal(a: string, b: string)
    ensures Less(a, b) || a == b || Less(b, a)
    ensures !(Less(a, b) && Less(b, a)) && !Less(a, a)
  {
    if a != "" && b != "" {
      LessTotal(a[1..], b[1..]);
      assert a[0] == b[0] && a[1..] == b[1..] ==> a == b by {
        assert a == [a[0]] + a[1..] && b == [b[0]] + b[1..];
      }
    }
    if a != "" {
      LessTotal(a[1..], a[1..]);
    }
  }

  lemma {:induction false} LessTransitive(a: string, b: string, c: string)
    requires Less(a, b) && Less(b, c)
    ensures Less(a, c)
  {
    if a != "" && a[0] == b[0] == c[0] {
      LessTransitive(a[1..], b[1..], c[1..]);
    }
  }

  predicate Sorted(xs: seq<string>) {
    forall i, j | 0 <= i < j < |xs| :: Less(xs[i], xs[j])
  }

  function Insert(xs: seq<string>, x: string): seq<string> {
    if xs == [] then [x]
    else if Less(x, xs[0]) then [x] + xs
    else [xs[0]] + Insert(xs[1..], x)
  }

  lemma {:induction false} InsertSorts(xs: seq<string>, x: string)
    requires Sorted(xs) && x !in xs
    ensures Sorted(Insert(xs, x))
    ensures forall y :: y in Insert(xs, x) <==> y in xs || y == x
  {
    if xs != [] {
      assert xs == [xs[0]] + xs[1..];
      if Less(x, xs[0]) {
        forall j | 0 <= j < |xs|
          ensures Less(x, xs[j])
        {
          if j > 0 {
            LessTransitive(x, xs[0], xs[j]);
          }
        }
      } else {
        LessTotal(x, xs[0]);
        InsertSorts(xs[1..], x);
        var rest := Insert(xs[1..], x);
        assert forall y | y in xs[1..] :: Less(xs[0], y);
        assert forall y | y in rest :: Less(xs[0], y);
      }
    }
  }

  lemma TailMembers(xs: seq<string>, s: string)
    requires Sorted(xs) && xs != []
    ensures s in xs[1..] <==> s in xs && s != xs[0]
  {
    assert xs == [xs[0]] + xs[1..];
    LessTotal(xs[0], xs[0]);
    if s in xs[1..] {
      var i :| 0 <= i < |xs[1..]| && xs[1..][i] == s;
      assert Less(xs[0], xs[i + 1]);
    }
  }

  /** Strict order leaves no freedom: the list is determined by its members. */
  lemma {:induction false} SortedUnique(xs: seq<string>, ys: seq<string>)
    requires Sorted(xs) && Sorted(ys) && forall s :: s in xs <==> s in ys
    ensures xs == ys
  {
    if ys != [] {
      assert ys[0] in xs;
    }
    if xs != [] {
      assert xs[0] in ys;
      LessTotal(xs[0], ys[0]);
      var i :| 0 <= i < |ys| && ys[i] == xs[0];
      var j :| 0 <= j < |xs| && xs[j] == ys[0];
      assert xs[0] == ys[0];
      forall s
        ensures s in xs[1..] <==> s in ys[1..]
      {
        TailMembers(xs, s);
        TailMembers(ys, s);
      }
      SortedUnique(xs[1..], ys[1..]);
    }
  }

  /** Every class token on an element node of these documents. */
  ghost predicate ClassOf(docs: seq<Option<Node>>, c: string) {
    exists i | 0 <= i < |docs| :: docs[i].Some? && c in ForestClasses([docs[i].value])
  }

  /** What the last tree of a stack adds, and what its children leave to do. */
  lemma PopForest(stack: seq<Node>)
    requires stack != []
    ensures var n, rest := stack[|stack| - 1], stack[..|stack| - 1];
            && ForestClasses(stack) == ForestClasses(rest + n.children) + OwnClasses(n)
            && ForestSize(stack) == ForestSize(rest + n.children) + 1
  {
    ForestAppend(stack[..|stack| - 1], stack[|stack| - 1].children);
  }

  /** The explicit-stack walk of one document. */
  method Walk(doc: Node, before: set<string>) returns (seen: set<string>)
    ensures seen == before + ForestClasses([doc])
  {
    hide ForestClasses, ForestSize, AttrClasses;
    seen := before;
    var stack := [doc];
    while |stack| > 0
      invariant seen + ForestClasses(stack) == before + ForestClasses([doc])
      decreases ForestSize(stack)
    {
      PopForest(stack);
      var n := stack[|stack| - 1];
      stack := stack[..|stack| - 1];
      if n.isElement {
        var own := CollectClasses(n.attrs);
        seen := seen + own;
      }
      ghost var popped := stack;
      for c := 0 to |n.children|
        invariant stack == popped + n.children[..c]
      {
        stack := stack + [n.children[c]];
      }
      assert n.children[..|n.children|] == n.children;
    }
    NoForest(stack);
  }

  lemma NoForest(stack: seq<Node>)
    requires stack == []
    ensures ForestClasses(stack) == {}
  {
  }

  method CollectClasses(attrs: seq<Attr>) returns (own: set<string>)
    ensures own == AttrClasses(attrs)
  {
    own := {};
    for i := 0 to |attrs|
      invariant own == AttrClasses(attrs[..i])
    {
      assert attrs[..i + 1][..i] == attrs[..i];
      if attrs[i].key == "class" {
        var fields := Fields(attrs[i].val);
        ghost var before := own;
        for j := 0 to |fields|
          invariant own == before + set c | c in fields[..j]
        {
          assert fields[..j + 1] == fields[..j] + [fields[j]];
          own := own + {fields[j]};
        }
        assert fields[..|fields|] == fields;
      }
    }
    assert attrs[..|attrs|] == attrs;
  }

  /** Collecting the keys of a map in any order and sorting them. */
  method SortedKeys(seen: set<string>) returns (classes: seq<string>)
    ensures Sorted(classes) && forall c :: c in classes <==> c in seen
  {
    classes := [];
    var rest := seen;
    while rest != {}
      invariant rest <= seen && Sorted(classes)
      invariant forall c :: c in classes <==> c in seen && c !in rest
      decreases |rest|
    {
      var c :| c in rest;
      InsertSorts(classes, c);
      classes := Insert(classes, c);
      rest := rest - {c};
    }
  }

  method ParseHTMLClasses(docs: seq<Option<Node>>) returns (r: Option<seq<string>>)
    ensures r.None? <==> exists i | 0 <= i < |docs| :: docs[i].None?
    ensures r.Some? ==> Sorted(r.value) && forall c :: c in r.value <==> ClassOf(docs, c)
  {
    var seen: set<string> := {};
    for i := 0 to |docs|
      invariant forall j | 0 <= j < i :: docs[j].Some?
      invariant forall c :: c in seen <==> ClassOf(docs[..i], c)
    {
      if docs[i].None? {
        return None;
      }
      ghost var before := seen;
      seen := Walk(docs[i].value, seen);
      forall c
        ensures c in seen <==> ClassOf(docs[..i + 1], c)
      {
        ClassOfLast(docs, i, c);
      }
    }
    assert docs[..|docs|] == docs;
    var classes := SortedKeys(seen);
    return Some(classes);
  }

  lemma ClassOfLast(docs: seq<Option<Node>>, i: nat, c: string)
    requires i < |docs| && docs[i].Some?
    ensures ClassOf(docs[..i + 1], c) <==> ClassOf(docs[..i], c) || c in ForestClasses([docs[i].value])
  {
    var a, b := docs[..i + 1], docs[..i];
    assert a[i] == docs[i] && forall j | 0 <= j < i :: a[j] == b[j];
  }

  lemma {:induction false} AttrTokens(attrs: seq<Attr>)
    ensures forall c | c in AttrClasses(attrs) :: IsToken(c)
  {
    if attrs != [] {
      AttrTokens(attrs[..|attrs| - 1]);
      FieldsAreTokens("", attrs[|attrs| - 1].val);
    }
  }

  /** Everything collected is a token: not empty and free of white space. */
  lemma {:induction false} ClassesAreTokens(forest: seq<Node>)
    ensures forall c | c in ForestClasses(forest) :: IsToken(c)
  {
    if forest != [] {
      ClassesAreTokens(forest[..|forest| - 1]);
      ClassesAreTokens(forest[|forest| - 1].children);
      AttrTokens(forest[|forest| - 1].attrs);
    }
  }

  const PREFIX: string := "@source inline(\""
  const SUFFIX: string := "\");"

  predicate IsSafe(cls: string) {
    '\"' !in cls && ')' !in cls && '\\' !in cls
  }

  method TailwindSourceInline(classes: seq<string>) returns (directive: string)
    ensures directive == PREFIX + Join(Filter(classes, IsSafe), ' ') + SUFFIX
    ensures directive == "@source inline(\"" + Join(Filter(classes, IsSafe), ' ') + "\");"
  {
    var safe: seq<string> := [];
    for i := 0 to |classes|
      invariant safe == Filter(classes[..i], IsSafe)
    {
      assert classes[..i + 1] == classes[..i] + [classes[i]];
      FilterLast(classes[..i], classes[i], IsSafe);
      if '\"' in classes[i] || ')' in classes[i] || '\\' in classes[i] {
        continue;
      }
      safe := safe + [classes[i]];
    }
    assert classes[..|classes|] == classes;
    return PREFIX + Join(safe, ' ') + SUFFIX;
  }

  /** The text before the first occurrence of a character. */
  function UpTo(s: string, c: char): string {
    if s == "" || s[0] == c then "" else [s[0]] + UpTo(s[1..], c)
  }

  lemma {:induction false} UpToFirst(s: string, rest: string, c: char)
    requires c !in s
    ensures UpTo(s + [c] + rest, c) == s
  {
    if s != "" {
      UpToFirst(s[1..], rest, c);
      assert (s + [c] + rest)[1..] == s[1..] + [c] + rest;
    }
  }

  lemma {:induction false} JoinAvoids(parts: seq<string>, sep: char, c: char)
    requires c != sep && forall p | p in parts :: c !in p
    ensures c !in Join(parts, sep)
  {
    if |parts| > 1 {
      JoinAvoids(parts[1..], sep, c);
    }
  }

  lemma {:induction false} FieldsOfToken(token: string, t: string, rest: string)
    requires (token == "" || IsToken(token)) && forall c | c in t :: !IsSpace(c)
    requires rest == "" || rest[0] == ' '
    ensures FieldsFrom(token, t + rest) == Flush(token + t) + if rest == "" then [] else Fields(rest[1..])
    decreases |t|
  {
    if t == "" {
      assert t + rest == rest && token + t == token;
    } else {
      FieldsOfToken(token + [t[0]], t[1..], rest);
      assert (t + rest)[1..] == t[1..] + rest;
      assert token + [t[0]] + t[1..] == token + t;
    }
  }

  lemma {:induction false} FieldsOfJoin(tokens: seq<string>)
    requires forall t | t in tokens :: IsToken(t)
    ensures Fields(Join(tokens, ' ')) == tokens
  {
    assert tokens != [] ==> IsToken(tokens[0]);
    if |tokens| == 1 {
      FieldsOfToken("", tokens[0], "");
      assert tokens[0] + "" == tokens[0] && "" + tokens[0] == tokens[0];
    } else if |tokens| > 1 {
      FieldsOfJoin(tokens[1..]);
      var rest := [' '] + Join(tokens[1..], ' ');
      FieldsOfToken("", tokens[0], rest);
      assert "" + tokens[0] == tokens[0] && rest[1..] == Join(tokens[1..], ' ');
      assert Join(tokens, ' ') == tokens[0] + rest;
      assert tokens == [tokens[0]] + tokens[1..];
    }
  }

  /** The part of a directive between its prefix and the quote that closes it. */
  function Quoted(directive: string): string
    requires |PREFIX| <= |directive|
  {
    UpTo(directive[|PREFIX|..], '"')
  }

  /** No safe class closes the quotation: the quoted part is the whole list, and the directive
      ends right after it. */
  lemma DirectiveIsClosed(classes: seq<string>)
    ensures var list := Join(Filter(classes, IsSafe), ' ');
            Quoted(PREFIX + list + SUFFIX) == list
  {
    var safe := Filter(classes, IsSafe);
    FilterKeeps(classes, IsSafe);
    JoinAvoids(safe, ' ', '"');
    var list := Join(safe, ' ');
    UpToFirst(list, ");", '"');
    assert (PREFIX + list + SUFFIX)[|PREFIX|..] == list + ['"'] + ");";
  }

  /** Splitting the quoted part gives back the safe classes exactly when all of them are tokens. */
  lemma DirectiveRoundTrip(classes: seq<string>)
    ensures var safe := Filter(classes, IsSafe);
            Fields(Quoted(PREFIX + Join(safe, ' ') + SUFFIX)) == safe <==> forall c | c in safe :: IsToken(c)
  {
    var safe := Filter(classes, IsSafe);
    DirectiveIsClosed(classes);
    FieldsAreTokens("", Join(safe, ' '));
    if forall c | c in safe :: IsToken(c) {
      FieldsOfJoin(safe);
    }
  }

  /** For the classes of parsed documents the round trip always holds. */
  lemma ParsedClassesRoundTrip(docs: seq<Option<Node>>, classes: seq<string>)
    requires forall c | c in classes :: ClassOf(docs, c)
    ensures var safe := Filter(classes, IsSafe);
            Fields(Quoted(PREFIX + Join(safe, ' ') + SUFFIX)) == safe
  {
    FilterKeeps(classes, IsSafe);
    forall c | c in Filter(classes, IsSafe)
      ensures IsToken(c)
    {
      var i :| 0 <= i < |docs| && docs[i].Some? && c in ForestClasses([docs[i].value]);
      ClassesAreTokens([docs[i].value]);
    }
    DirectiveRoundTrip(classes);
  }
}
