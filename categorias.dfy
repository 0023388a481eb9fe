/**
 * The Categoria model: a named, slugged grouping of articles. `nome` and `slug` are each
 * unique across the table, and categories are listed in order of `nome`.
 */
module Categorias {
  import opened Wrappers
  import opened Errors
  import opened Sorting
  import opened Urls

  /** Default of the `cor` field. */
  const DEFAULT_COR: string := "#3498db"

  /** One row of the Categoria table. */
  datatype Categoria = Categoria(pk: nat, nome: string, slug: string, descricao: string, cor: string)

  /** Lexicographic order of strings by character code. */
  predicate NomeLe(a: string, b: string)
  {
    if a == [] then true
    else if b == [] then false
    else if a[0] != b[0] then a[0] < b[0]
    else NomeLe(a[1..], b[1..])
  }

  lemma {:induction false} NomeLeTotal(a: string, b: string)
    ensures NomeLe(a, b) || NomeLe(b, a)
  {
    if a != [] && b != [] && a[0] == b[0] {
      NomeLeTotal(a[1..], b[1..]);
    }
  }

  lemma {:induction false} NomeLeTransitive(a: string, b: string, c: string)
    requires NomeLe(a, b) && NomeLe(b, c)
    ensures NomeLe(a, c)
  {
    if a != [] && b != [] && c != [] && a[0] == b[0] && b[0] == c[0] {
      NomeLeTransitive(a[1..], b[1..], c[1..]);
    }
  }

  /** `Meta.ordering = ['nome']`: `a` may be listed before `b`. */
  predicate ByNome(a: Categoria, b: Categoria)
  {
    NomeLe(a.nome, b.nome)
  }

  lemma ByNomeIsTotalOrder()
    ensures Total(ByNome) && Transitive(ByNome)
  {
    forall a: Categoria, b: Categoria
      ensures ByNome(a, b) || ByNome(b, a)
    {
      NomeLeTotal(a.nome, b.nome);
    }
    forall a: Categoria, b: Categoria, c: Categoria | ByNome(a, b) && ByNome(b, c)
      ensures ByNome(a, c)
    {
      NomeLeTransitive(a.nome, b.nome, c.nome);
    }
  }

  /** The default enumeration `Categoria.objects.all()`: every category, by ascending `nome`. */
  function Listing(cs: seq<Categoria>): (r: seq<Categoria>)
    ensures multiset(r) == multiset(cs)
    ensures forall i, j :: 0 <= i < j < |r| ==> NomeLe(r[i].nome, r[j].nome)
  {
    ByNomeIsTotalOrder();
    SortSorted(cs, ByNome);
    SortedPairwise(Sort(cs, ByNome), ByNome);
    Sort(cs, ByNome)
  }

  /** Primary keys, names and slugs are pairwise distinct. */
  ghost predicate Unique(cs: seq<Categoria>)
  {
    forall i, j :: 0 <= i < j < |cs| ==>
      cs[i].pk != cs[j].pk && cs[i].nome != cs[j].nome && cs[i].slug != cs[j].slug
  }

  /** A row already holds `nome` or `slug`, so inserting them violates a unique column. */
  predicate KeyTaken(cs: seq<Categoria>, nome: string, slug: string)
  {
    exists c :: c in cs && (c.nome == nome || c.slug == slug)
  }

  /** INSERT of a new category row: rejected with DuplicateKey when `nome` or `slug` is taken. */
  function Insert(cs: seq<Categoria>, c: Categoria): (r: Result<seq<Categoria>, Erro>)
    ensures r.Failure? <==> KeyTaken(cs, c.nome, c.slug)
    ensures r.Failure? ==> r.error == DuplicateKey
    ensures r.Success? ==> r.value == cs + [c]
    ensures r.Success? && Unique(cs) && (forall d :: d in cs ==> d.pk != c.pk) ==> Unique(r.value)
  {
    if KeyTaken(cs, c.nome, c.slug) then Failure(DuplicateKey) else Success(cs + [c])
  }

  /** `Categoria.get_absolute_url`: the category's article listing. */
  function AbsoluteUrl(c: Categoria): (u: Rota)
    ensures u.ArtigosPorCategoria? && u.slug == c.slug
  {
    ArtigosPorCategoria(c.slug)
  }

  /** In a table with unique slugs, distinct categories have distinct listing routes. */
  lemma AbsoluteUrlInjective(cs: seq<Categoria>, i: int, j: int)
    requires Unique(cs)
    requires 0 <= i < |cs| && 0 <= j < |cs| && i != j
    ensures AbsoluteUrl(cs[i]) != AbsoluteUrl(cs[j])
  {
  }

  /** With unique names the listing is strictly ascending by `nome`. */
  lemma ListingStrict(cs: seq<Categoria>)
    requires Unique(cs)
    ensures forall i, j :: 0 <= i < j < |Listing(cs)| ==> Listing(cs)[i].nome != Listing(cs)[j].nome
  {
    var r := Listing(cs);
    forall i, j | 0 <= i < j < |r|
      ensures r[i].nome != r[j].nome
    {
      PermutationKeepsNamesApart(cs, r, i, j);
    }
  }

  /** Distinct slots of a permutation of a table with unique names hold distinct names. */
  lemma PermutationKeepsNamesApart(cs: seq<Categoria>, r: seq<Categoria>, i: int, j: int)
    requires Unique(cs) && multiset(r) == multiset(cs)
    requires 0 <= i < j < |r|
    ensures r[i].nome != r[j].nome
  {
    assert r[i] in multiset(cs) && r[j] in multiset(cs);
    var a :| 0 <= a < |cs| && cs[a] == r[i];
    var b :| 0 <= b < |cs| && cs[b] == r[j];
    OccursOnce(cs, a);
    assert r == r[..j] + [r[j]] + r[j + 1..];
    assert r[i] in r[..j];
    assert multiset(r)[r[i]] >= multiset(r[..j])[r[i]] + (if r[j] == r[i] then 1 else 0);
    assert r[j] != r[i];
    assert a != b;
  }

  /** In a table with unique primary keys an entry occurs once. */
  lemma {:induction false} OccursOnce(cs: seq<Categoria>, a: int)
    requires Unique(cs) && 0 <= a < |cs|
    ensures multiset(cs)[cs[a]] == 1
  {
    if a == 0 {
      assert cs == [cs[0]] + cs[1..];
      assert cs[0] !in cs[1..];
    } else {
      assert cs == [cs[0]] + cs[1..];
      assert Unique(cs[1..]);
      OccursOnce(cs[1..], a - 1);
      assert cs[1..][a - 1] == cs[a];
    }
  }
}
