/** Values and records as the client sees them (client/lib/types.ts), and the
    JavaScript primitives the client's sorting leans on. `localeCompare`,
    `String(date)` and `encodeURI` belong to the browser, so they are fields
    of a `Host` value handed to every operation that needs them; the model
    asks of `localeCompare` only that it be a total preorder. */
module ClientTypes {
  import opened StableSort

  /** A field's run-time value. The declared type of the date fields is
      `Date`, but a decoded JSON response carries strings there. */
  datatype Value =
    | Str(s: string)
    | Date(time: int)
    | Bool(b: bool)
    | Num(n: int)
    | Null
    | Undefined

  datatype Kind = StrKind | DateKind | BoolKind | NumKind | NullKind | UndefinedKind

  function KindOf(v: Value): Kind {
    match v
    case Str(_) => StrKind
    case Date(_) => DateKind
    case Bool(_) => BoolKind
    case Num(_) => NumKind
    case Null => NullKind
    case Undefined => UndefinedKind
  }

  /** The client's `Snippet`. */
  datatype Snippet = Snippet(
    id: string,
    title: string,
    description: string,
    content: string,
    language: string,
    tags: seq<string>,
    createdAt: Value,
    updatedAt: Value,
    isFavorite: bool)

  /** The keys of `Snippet` a list can be sorted by. */
  datatype Field = Title | Description | Content | Language | CreatedAt | UpdatedAt | IsFavorite

  /** `snippet[field]`. */
  function FieldValue(s: Snippet, f: Field): Value {
    match f
    case Title => Str(s.title)
    case Description => Str(s.description)
    case Content => Str(s.content)
    case Language => Str(s.language)
    case CreatedAt => s.createdAt
    case UpdatedAt => s.updatedAt
    case IsFavorite => Bool(s.isFavorite)
  }

  /** The browser primitives: `String.prototype.localeCompare`, `String(date)`
      (by time value) and `encodeURI`. */
  datatype Host = Host(
    localeCompare: (string, string) -> int,
    dateString: int -> string,
    encodeUri: string -> string)

  /** `localeCompare` is a total preorder: swapping the arguments flips the
      sign, and "not after" is transitive. */
  ghost predicate ValidHost(h: Host) {
    && (forall a, b :: Sign(h.localeCompare(a, b)) == -Sign(h.localeCompare(b, a)))
    && (forall a, b, c :: h.localeCompare(a, b) <= 0 && h.localeCompare(b, c) <= 0 ==> h.localeCompare(a, c) <= 0)
  }

  lemma LocaleCompareOrders(h: Host, tags: seq<string>)
    requires ValidHost(h)
    ensures PreorderOn(h.localeCompare, tags)
  {
  }

  function DigitChar(d: int): char
    requires 0 <= d < 10
  {
    ('0' as int + d) as char
  }

  function NatToString(n: nat): string
    decreases n
  {
    if n < 10 then [DigitChar(n)] else NatToString(n / 10) + [DigitChar(n % 10)]
  }

  /** The decimal form of an integer, as `String(number)` writes it. */
  function IntToString(n: int): string {
    if n < 0 then "-" + NatToString(-n) else NatToString(n)
  }

  /** `String(value)`, JavaScript's string conversion. */
  function String(h: Host, v: Value): string {
    match v
    case Str(s) => s
    case Date(t) => h.dateString(t)
    case Bool(b) => if b then "true" else "false"
    case Num(n) => IntToString(n)
    case Null => "null"
    case Undefined => "undefined"
  }

  /** `comparison` or `-comparison`, as each sort's order test picks. */
  function Directed(c: int, ascending: bool): int {
    if ascending then c else -c
  }

  /** The comparator a sort passes to `Array.prototype.sort`: a value
      comparison applied to one field, negated when not ascending. */
  function ByField(vc: (Value, Value) -> int, f: Field, ascending: bool): (Snippet, Snippet) -> int {
    (a: Snippet, b: Snippet) => Directed(vc(FieldValue(a, f), FieldValue(b, f)), ascending)
  }

  /** All values of the field share one kind over the list. */
  ghost predicate Homogeneous(s: seq<Snippet>, f: Field) {
    forall a, b | a in s && b in s :: KindOf(FieldValue(a, f)) == KindOf(FieldValue(b, f))
  }

  /** A value comparison that is a total preorder within each kind. */
  ghost predicate KindConsistent(vc: (Value, Value) -> int) {
    && (forall x, y :: KindOf(x) == KindOf(y) ==> Sign(vc(x, y)) == -Sign(vc(y, x)))
    && (forall x, y, z :: KindOf(x) == KindOf(y) == KindOf(z) && vc(x, y) <= 0 && vc(y, z) <= 0 ==> vc(x, z) <= 0)
  }

  /** The text fields and the favourite flag never mix kinds. */
  lemma TypedFieldsHomogeneous(s: seq<Snippet>, f: Field)
    requires f != CreatedAt && f != UpdatedAt
    ensures Homogeneous(s, f)
  {
  }

  /** A value comparison consistent within kinds, applied to a field whose
      values share a kind, orders the list consistently in either
      direction. */
  lemma ByFieldPreorder(vc: (Value, Value) -> int, f: Field, ascending: bool, s: seq<Snippet>)
    requires KindConsistent(vc) && Homogeneous(s, f)
    ensures PreorderOn(ByField(vc, f, ascending), s)
  {
    var cmp := ByField(vc, f, ascending);
    forall a, b | a in s && b in s ensures Sign(cmp(a, b)) == -Sign(cmp(b, a)) {
      assert Sign(vc(FieldValue(a, f), FieldValue(b, f))) == -Sign(vc(FieldValue(b, f), FieldValue(a, f)));
    }
    forall a, b, c | a in s && b in s && c in s && cmp(a, b) <= 0 && cmp(b, c) <= 0
      ensures cmp(a, c) <= 0
    {
      var x, y, z := FieldValue(a, f), FieldValue(b, f), FieldValue(c, f);
      if ascending {
        assert vc(x, y) <= 0 && vc(y, z) <= 0;
      } else {
        assert Sign(vc(x, y)) == -Sign(vc(y, x)) && Sign(vc(y, z)) == -Sign(vc(z, y));
        assert Sign(vc(x, z)) == -Sign(vc(z, x));
        assert vc(z, y) <= 0 && vc(y, x) <= 0;
      }
    }
  }

  /** Sorting by a field whose values share a kind, with a value comparison
      consistent within kinds: the result is a permutation, ordered by the
      comparator, and keeps every group of equal elements in input order. */
  lemma FieldSortCorrect(vc: (Value, Value) -> int, f: Field, ascending: bool, s: seq<Snippet>)
    requires KindConsistent(vc) && Homogeneous(s, f)
    ensures multiset(Sort(s, ByField(vc, f, ascending))) == multiset(s)
    ensures SortedBy(ByField(vc, f, ascending), Sort(s, ByField(vc, f, ascending)))
    ensures forall t | t in s ::
      Ties(Sort(s, ByField(vc, f, ascending)), ByField(vc, f, ascending), t) == Ties(s, ByField(vc, f, ascending), t)
  {
    var cmp := ByField(vc, f, ascending);
    ByFieldPreorder(vc, f, ascending, s);
    SortPermutation(s, cmp);
    SortSorted(s, cmp);
    forall t | t in s ensures Ties(Sort(s, cmp), cmp, t) == Ties(s, cmp, t) {
      SortStable(s, cmp, t);
    }
  }

  /** Code-unit lexicographic order, the order of `<` on JavaScript strings. */
  function Lex(a: string, b: string): int
    decreases |a|
  {
    if a == [] && b == [] then 0
    else if a == [] then -1
    else if b == [] then 1
    else if a[0] < b[0] then -1
    else if a[0] > b[0] then 1
    else Lex(a[1..], b[1..])
  }

  lemma {:induction false} LexAntisymmetric(a: string, b: string)
    ensures Sign(Lex(a, b)) == -Sign(Lex(b, a))
    decreases |a|
  {
    if a != [] && b != [] && a[0] == b[0] {
      LexAntisymmetric(a[1..], b[1..]);
    }
  }

  lemma {:induction false} LexTransitive(a: string, b: string, c: string)
    requires Lex(a, b) <= 0 && Lex(b, c) <= 0
    ensures Lex(a, c) <= 0
    decreases |a|
  {
    if a != [] && b != [] && c != [] && a[0] == b[0] && b[0] == c[0] {
      LexTransitive(a[1..], b[1..], c[1..]);
    }
  }

  /** A host whose `localeCompare` is the code-unit order: it meets
      `ValidHost`, so the assumptions placed on hosts can be met. */
  function LexHost(): (h: Host)
    ensures ValidHost(h)
  {
    var h := Host(Lex, IntToString, s => s);
    assert ValidHost(h) by {
      forall a, b ensures Sign(Lex(a, b)) == -Sign(Lex(b, a)) {
        LexAntisymmetric(a, b);
      }
      forall a, b, c | Lex(a, b) <= 0 && Lex(b, c) <= 0 ensures Lex(a, c) <= 0 {
        LexTransitive(a, b, c);
      }
    }
    h
  }
}
