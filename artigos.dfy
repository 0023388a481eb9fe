/**
 * The Artigo model as rows of its table: the three-valued status, the publication date that
 * `save` stamps once, the date-scoped slug uniqueness (`unique_for_date`), the default ordering,
 * `get_absolute_url`, `publicado` and the per-category published count `total_artigos`.
 */
module Artigos {
  import opened Wrappers
  import opened Errors
  import opened Timestamps
  import opened Sorting
  import opened Urls
  import opened Categorias

  /** `STATUS_CHOICES`: rascunho, revisao, publicado. */
  datatype Status = Rascunho | Revisao | Publicado

  /** Default of the `status` field. */
  const DEFAULT_STATUS: Status := Rascunho

  /** Default of the `tempo_leitura` field, in minutes. */
  const DEFAULT_TEMPO_LEITURA: nat := 5

  /** One row of the Artigo table; `autor` and `categoria` hold the referenced primary keys. */
  datatype Registro = Registro(
    pk: nat,
    titulo: string,
    slug: string,
    resumo: string,
    conteudo: string,
    autor: nat,
    categoria: Option<nat>,
    status: Status,
    destaque: bool,
    dataPublicacao: Option<Timestamp>,
    metaDescricao: string,
    tempoLeitura: nat)

  /** The `publicado` property. */
  predicate EstaPublicado(r: Registro): (p: bool)
    ensures p <==> r.status == Publicado
    ensures p ==> r.status != DEFAULT_STATUS
  {
    r.status == Publicado
  }

  // ---------------------------------------------------------------------------------------
  // save: stamping the publication date

  /**
   * The publication date `save` leaves on an article whose status is `status` and whose date
   * was `data`, when the clock reads `now`.
   */
  function StampedDate(status: Status, data: Option<Timestamp>, now: Timestamp): (d: Option<Timestamp>)
    ensures data.Some? ==> d == data
    ensures status == Publicado ==> d.Some?
    ensures status != Publicado ==> d == data
    ensures d.Some? ==> d == data || d == Some(now)
  {
    if status == Publicado && data.None? then Some(now) else data
  }

  /** The row as `save` hands it to the database. */
  function Stamped(r: Registro, now: Timestamp): Registro
  {
    r.(dataPublicacao := StampedDate(r.status, r.dataPublicacao, now))
  }

  /** The date is stamped exactly when a published article without a date is saved. */
  lemma StampedDateExactly(status: Status, data: Option<Timestamp>, now: Timestamp)
    ensures StampedDate(status, data, now) == Some(now) && data != Some(now)
            <==> status == Publicado && data.None?
  {
  }

  /**
   * `save` never changes whether the article is publicado, and a publicado article always
   * leaves `save` with a publication date.
   */
  lemma SaveKeepsPublicado(r: Registro, now: Timestamp)
    ensures EstaPublicado(Stamped(r, now)) <==> r.status == Publicado
    ensures EstaPublicado(Stamped(r, now)) ==> Stamped(r, now).dataPublicacao.Some?
  {
  }

  /** Saving twice with the same status leaves the date of the first save. */
  lemma SaveIdempotent(status: Status, data: Option<Timestamp>, t1: Timestamp, t2: Timestamp)
    ensures StampedDate(status, StampedDate(status, data, t1), t2) == StampedDate(status, data, t1)
  {
  }

  /** One call of `save`: the status the instance had and the time the clock read. */
  datatype SaveCall = SaveCall(status: Status, now: Timestamp)

  /** The publication date after a history of saves, starting from `data`. */
  function AfterSaves(data: Option<Timestamp>, calls: seq<SaveCall>): Option<Timestamp>
    decreases |calls|
  {
    if calls == [] then data
    else AfterSaves(StampedDate(calls[0].status, data, calls[0].now), calls[1..])
  }

  /** `calls[i]` is the first save made while the status was publicado. */
  ghost predicate FirstPublishingSave(calls: seq<SaveCall>, i: int)
  {
    && 0 <= i < |calls|
    && calls[i].status == Publicado
    && forall j :: 0 <= j < i ==> calls[j].status != Publicado
  }

  /** Once set, the publication date survives every later save. */
  lemma {:induction false} AfterSavesKeepsDate(data: Option<Timestamp>, calls: seq<SaveCall>)
    requires data.Some?
    ensures AfterSaves(data, calls) == data
    decreases |calls|
  {
    if calls != [] {
      AfterSavesKeepsDate(StampedDate(calls[0].status, data, calls[0].now), calls[1..]);
    }
  }

  /**
   * An article that never had a date ends up with the time of its first save as publicado,
   * whatever happens before (drafts, review) and after (unpublishing, republishing).
   */
  lemma {:induction false} AfterSavesFirstPublication(calls: seq<SaveCall>, i: int)
    requires FirstPublishingSave(calls, i)
    ensures AfterSaves(None, calls) == Some(calls[i].now)
    decreases |calls|
  {
    if i == 0 {
      AfterSavesKeepsDate(Some(calls[0].now), calls[1..]);
    } else {
      assert FirstPublishingSave(calls[1..], i - 1) by {
        forall j | 0 <= j < i - 1
          ensures calls[1..][j].status != Publicado
        {
          assert calls[1..][j] == calls[j + 1];
        }
      }
      AfterSavesFirstPublication(calls[1..], i - 1);
    }
  }

  /** An article never saved as publicado has no publication date. */
  lemma {:induction false} AfterSavesNeverPublished(calls: seq<SaveCall>)
    requires forall i :: 0 <= i < |calls| ==> calls[i].status != Publicado
    ensures AfterSaves(None, calls) == None
    decreases |calls|
  {
    if calls != [] {
      assert forall i :: 0 <= i < |calls[1..]| ==> calls[1..][i] == calls[i + 1];
      AfterSavesNeverPublished(calls[1..]);
    }
  }

  /** Publishing, pulling back to review and publishing again keeps the first publication time. */
  lemma RepublishKeepsFirstDate(t1: Timestamp, t2: Timestamp, t3: Timestamp)
    ensures AfterSaves(None, [SaveCall(Publicado, t1), SaveCall(Revisao, t2), SaveCall(Publicado, t3)])
            == Some(t1)
  {
    AfterSavesFirstPublication([SaveCall(Publicado, t1), SaveCall(Revisao, t2), SaveCall(Publicado, t3)], 0);
  }

  // ---------------------------------------------------------------------------------------
  // The table: primary keys, unique_for_date, INSERT/UPDATE

  /** Primary keys are pairwise distinct. */
  predicate UniquePks(rows: seq<Registro>)
  {
    forall i, j :: 0 <= i < j < |rows| ==> rows[i].pk != rows[j].pk
  }

  /** Same slug on the same calendar day of publication; never holds when a date is null. */
  predicate SameDaySlug(a: Registro, b: Registro): (s: bool)
    ensures s ==> a.dataPublicacao.Some? && b.dataPublicacao.Some?
    ensures s ==> a.slug == b.slug && a.dataPublicacao.value.date == b.dataPublicacao.value.date
  {
    && a.dataPublicacao.Some?
    && b.dataPublicacao.Some?
    && a.dataPublicacao.value.date == b.dataPublicacao.value.date
    && a.slug == b.slug
  }

  /** `unique_for_date='data_publicacao'` holds of the whole table. */
  ghost predicate UniqueForDate(rows: seq<Registro>)
  {
    forall a, b :: a in rows && b in rows && a.pk != b.pk ==> !SameDaySlug(a, b)
  }

  /**
   * The date check Django runs for `unique_for_date`: it is skipped when `r` has no date, and
   * otherwise looks for another row (other primary key) with the same slug on the same day.
   */
  predicate ConflictsOnDate(rows: seq<Registro>, r: Registro): (b: bool)
    ensures r.dataPublicacao.None? ==> !b
    ensures !b && UniqueForDate(rows) ==> UniqueForDate(rows + [r])
  {
    exists q :: q in rows && q.pk != r.pk && SameDaySlug(q, r)
  }

  /** The row stored under primary key `pk`. */
  function Lookup(rows: seq<Registro>, pk: nat): (r: Option<Registro>)
    ensures r.Some? ==> r.value in rows && r.value.pk == pk
    ensures r.None? ==> forall q :: q in rows ==> q.pk != pk
  {
    if rows == [] then None
    else if rows[0].pk == pk then Some(rows[0])
    else Lookup(rows[1..], pk)
  }

  /** What `Model.save` persists: an UPDATE of the row with `r.pk`, or an INSERT when there is none. */
  function Upsert(rows: seq<Registro>, r: Registro): (u: seq<Registro>)
    ensures Lookup(u, r.pk) == Some(r)
    ensures forall p :: p != r.pk ==> Lookup(u, p) == Lookup(rows, p)
    ensures forall q :: q in u ==> q == r || q in rows
    ensures forall q :: q in rows && q.pk != r.pk ==> q in u
    ensures |u| == if Lookup(rows, r.pk).Some? then |rows| else |rows| + 1
  {
    if rows == [] then [r]
    else if rows[0].pk == r.pk then [r] + rows[1..]
    else [rows[0]] + Upsert(rows[1..], r)
  }

  lemma {:induction false} UpsertKeepsUniquePks(rows: seq<Registro>, r: Registro)
    requires UniquePks(rows)
    ensures UniquePks(Upsert(rows, r))
  {
    if rows != [] && rows[0].pk != r.pk {
      var t := rows[1..];
      assert UniquePks(t);
      UpsertKeepsUniquePks(t, r);
      var u := Upsert(rows, r);
      forall j | 0 < j < |u|
        ensures u[0].pk != u[j].pk
      {
        assert u[j] in Upsert(t, r);
        if u[j] != r {
          assert u[j] in t;
          var k :| 0 <= k < |t| && t[k] == u[j];
          assert rows[k + 1] == u[j];
        }
      }
      forall i, j | 0 < i < j < |u|
        ensures u[i].pk != u[j].pk
      {
        assert u[i] == Upsert(t, r)[i - 1] && u[j] == Upsert(t, r)[j - 1];
      }
    }
  }

  /** A write that passes the date check keeps the table unique for date. */
  lemma UpsertKeepsUniqueForDate(rows: seq<Registro>, r: Registro)
    requires !ConflictsOnDate(rows, r)
    ensures UniqueForDate(rows) ==> UniqueForDate(Upsert(rows, r))
  {
  }

  /** Every row's primary key is below `next`; then `next` is a fresh key. */
  ghost predicate PksBelow(rows: seq<Registro>, next: nat)
  {
    forall q :: q in rows ==> q.pk < next
  }

  // ---------------------------------------------------------------------------------------
  // Saving a row: the date check on the stamped row, then the write

  /**
   * `save` of `r` at time `now` with the date check of `unique_for_date` applied to the row
   * exactly as it will be stored, i.e. after the publication date has been stamped.
   */
  function SaveChecked(rows: seq<Registro>, r: Registro, now: Timestamp): (res: Result<seq<Registro>, Erro>)
    ensures res.Failure? <==> ConflictsOnDate(rows, Stamped(r, now))
    ensures res.Failure? ==> res.error == SlugNotUniqueForDate
    ensures res.Success? ==> res.value == Upsert(rows, Stamped(r, now))
    ensures res.Success? ==> Lookup(res.value, r.pk) == Some(Stamped(r, now))
    ensures res.Success? && UniqueForDate(rows) ==> UniqueForDate(res.value)
    ensures res.Success? && UniquePks(rows) ==> UniquePks(res.value)
  {
    var s := Stamped(r, now);
    if ConflictsOnDate(rows, s) then
      Failure(SlugNotUniqueForDate)
    else
      UpsertKeepsUniqueForDate(rows, s);
      if UniquePks(rows) then UpsertKeepsUniquePks(rows, s); Success(Upsert(rows, s))
      else Success(Upsert(rows, s))
  }

  /**
   * `save` as Django runs it from a ModelForm (the admin's path): `full_clean` performs the date
   * check on the instance BEFORE `save` stamps the publication date, so a first publication is
   * checked with a null date, i.e. not at all.
   */
  function SaveAfterFormValidation(rows: seq<Registro>, r: Registro, now: Timestamp): (res: Result<seq<Registro>, Erro>)
    ensures res.Failure? <==> ConflictsOnDate(rows, r)
    ensures res.Success? ==> res.value == Upsert(rows, Stamped(r, now))
  {
    if ConflictsOnDate(rows, r) then Failure(SlugNotUniqueForDate) else Success(Upsert(rows, Stamped(r, now)))
  }

  /**
   * The form path lets a second article with the same slug be published on the same day: the
   * table is unique for date before and not after.
   */
  lemma FormValidationAdmitsSameDaySlug(a: Registro, b: Registro, now: Timestamp)
    requires a.dataPublicacao.Some? && a.dataPublicacao.value.date == now.date
    requires b.slug == a.slug && b.pk != a.pk
    requires b.status == Publicado && b.dataPublicacao.None?
    ensures UniqueForDate([a])
    ensures SaveAfterFormValidation([a], b, now).Success?
    ensures !UniqueForDate(SaveAfterFormValidation([a], b, now).value)
  {
    var u := SaveAfterFormValidation([a], b, now).value;
    assert Stamped(b, now) in u;
    assert a in u;
    assert SameDaySlug(a, Stamped(b, now));
  }

  /** The checked save rejects that same second publication. */
  lemma SaveCheckedRejectsSameDaySlug(a: Registro, b: Registro, now: Timestamp)
    requires a.dataPublicacao.Some? && a.dataPublicacao.value.date == now.date
    requires b.slug == a.slug && b.pk != a.pk
    requires b.status == Publicado && b.dataPublicacao.None?
    ensures SaveChecked([a], b, now) == Failure(SlugNotUniqueForDate)
  {
    assert SameDaySlug(a, Stamped(b, now));
  }

  // ---------------------------------------------------------------------------------------
  // get_absolute_url

  /**
   * `get_absolute_url`: the dated detail route when there is a publication date, otherwise the
   * draft route by primary key.
   */
  function AbsoluteUrl(slug: string, data: Option<Timestamp>, pk: Option<nat>): (u: Rota)
    ensures data.Some? ==> u == DetalheArtigo(data.value.date.year, data.value.date.month, data.value.date.day, slug)
    ensures data.None? ==> u == DetalheArtigoRascunho(pk)
  {
    match data
    case Some(t) => DetalheArtigo(t.date.year, t.date.month, t.date.day, slug)
    case None => DetalheArtigoRascunho(pk)
  }

  /** The route of a stored row. */
  function RowUrl(r: Registro): Rota
  {
    AbsoluteUrl(r.slug, r.dataPublicacao, Some(r.pk))
  }

  /** The stored rows a route designates: by day and slug, or by primary key. */
  predicate Designates(u: Rota, r: Registro)
  {
    match u
    case DetalheArtigo(y, m, d, s) =>
      r.dataPublicacao.Some? && r.dataPublicacao.value.date == Date(y, m, d) && r.slug == s
    case DetalheArtigoRascunho(p) => p == Some(r.pk)
    case ArtigosPorCategoria(_) => false
  }

  /** In a valid table an article's URL designates that article and no other. */
  lemma RowUrlIdentifiesArticle(rows: seq<Registro>, r: Registro)
    requires UniquePks(rows) && UniqueForDate(rows) && r in rows
    ensures Designates(RowUrl(r), r)
    ensures forall q :: q in rows && Designates(RowUrl(r), q) ==> q == r
  {
    forall q | q in rows && Designates(RowUrl(r), q)
      ensures q == r
    {
      if r.dataPublicacao.Some? {
        assert SameDaySlug(q, r);
      }
      assert q.pk == r.pk;
      var i :| 0 <= i < |rows| && rows[i] == q;
      var j :| 0 <= j < |rows| && rows[j] == r;
      assert !(i < j) && !(j < i);
    }
  }

  // ---------------------------------------------------------------------------------------
  // Default ordering: ['-data_publicacao']

  /**
   * `a` may be listed before `b`: more recent publication first; rows without a date come
   * after all dated rows (the NULL placement of SQLite and MySQL for a descending order).
   */
  predicate NewerFirst(a: Registro, b: Registro)
  {
    match (a.dataPublicacao, b.dataPublicacao)
    case (Some(ta), Some(tb)) => NotAfter(tb, ta)
    case (Some(_), None) => true
    case (None, Some(_)) => false
    case (None, None) => true
  }

  lemma NewerFirstIsTotalOrder()
    ensures Total(NewerFirst) && Transitive(NewerFirst)
  {
    forall a: Registro, b: Registro
      ensures NewerFirst(a, b) || NewerFirst(b, a)
    {
      if a.dataPublicacao.Some? && b.dataPublicacao.Some? {
        NotAfterTotal(a.dataPublicacao.value, b.dataPublicacao.value);
      }
    }
    forall a: Registro, b: Registro, c: Registro | NewerFirst(a, b) && NewerFirst(b, c)
      ensures NewerFirst(a, c)
    {
      if a.dataPublicacao.Some? && b.dataPublicacao.Some? && c.dataPublicacao.Some? {
        NotAfterTransitive(c.dataPublicacao.value, b.dataPublicacao.value, a.dataPublicacao.value);
      }
    }
  }

  /** The default listing `Artigo.objects.all()`: every row, most recently published first. */
  function Listing(rows: seq<Registro>): (l: seq<Registro>)
    ensures multiset(l) == multiset(rows)
    ensures forall i, j :: 0 <= i < j < |l| ==> NewerFirst(l[i], l[j])
  {
    NewerFirstIsTotalOrder();
    SortSorted(rows, NewerFirst);
    SortedPairwise(Sort(rows, NewerFirst), NewerFirst);
    Sort(rows, NewerFirst)
  }

  // ---------------------------------------------------------------------------------------
  // Categoria.total_artigos

  /** The related manager `categoria.artigos`: the rows whose category is `c`. */
  function InCategoria(rows: seq<Registro>, c: Categoria): (s: seq<Registro>)
    ensures forall q :: q in s <==> q in rows && q.categoria == Some(c.pk)
    ensures forall q :: multiset(s)[q] == if q.categoria == Some(c.pk) then multiset(rows)[q] else 0
    ensures |s| <= |rows|
  {
    if rows == [] then []
    else
      assert rows == [rows[0]] + rows[1..];
      if rows[0].categoria == Some(c.pk) then [rows[0]] + InCategoria(rows[1..], c)
      else InCategoria(rows[1..], c)
  }


  /** 1 when `q` is a published article of `c`. */
  function Counts(q: Registro, c: Categoria): nat
  {
    if q.categoria == Some(c.pk) && EstaPublicado(q) then 1 else 0
  }

  /** `total_artigos`: the number of published articles in `c`. */
  function TotalArtigos(rows: seq<Registro>, c: Categoria): (n: nat)
    ensures n <= |InCategoria(rows, c)|
  {
    if rows == [] then 0 else Counts(rows[0], c) + TotalArtigos(rows[1..], c)
  }

  /** The published articles of `c`, as a set. */
  ghost function PublishedIn(rows: seq<Registro>, c: Categoria): set<Registro>
  {
    set q | q in rows && q.categoria == Some(c.pk) && EstaPublicado(q)
  }

  /** In a table with unique primary keys `total_artigos` is the size of that set. */
  lemma {:induction false} TotalArtigosIsPublishedCount(rows: seq<Registro>, c: Categoria)
    requires UniquePks(rows)
    ensures TotalArtigos(rows, c) == |PublishedIn(rows, c)|
  {
    if rows != [] {
      var t := rows[1..];
      assert UniquePks(t);
      TotalArtigosIsPublishedCount(t, c);
      assert rows[0] !in t by {
        forall k | 0 <= k < |t|
          ensures t[k] != rows[0]
        {
          assert t[k] == rows[k + 1];
        }
      }
      assert rows == [rows[0]] + t;
      if Counts(rows[0], c) == 1 {
        assert PublishedIn(rows, c) == PublishedIn(t, c) + {rows[0]};
      } else {
        assert PublishedIn(rows, c) == PublishedIn(t, c);
      }
    }
  }

  /** Saving a row changes `total_artigos` by the difference of the old and the new row's share. */
  lemma {:induction false} TotalArtigosAfterUpsert(rows: seq<Registro>, r: Registro, c: Categoria)
    ensures TotalArtigos(Upsert(rows, r), c)
              + (match Lookup(rows, r.pk) case Some(q) => Counts(q, c) case None => 0)
            == TotalArtigos(rows, c) + Counts(r, c)
  {
    if rows != [] && rows[0].pk != r.pk {
      TotalArtigosAfterUpsert(rows[1..], r, c);
      assert Upsert(rows, r)[1..] == Upsert(rows[1..], r);
    } else if rows != [] {
      assert Upsert(rows, r)[1..] == rows[1..];
    }
  }

  /** Publishing a draft or reviewed article of `c` raises `total_artigos(c)` by exactly one. */
  lemma PublishingCountsOnce(rows: seq<Registro>, r: Registro, c: Categoria, now: Timestamp)
    requires UniquePks(rows) && r in rows
    requires r.categoria == Some(c.pk) && r.status != Publicado
    ensures TotalArtigos(Upsert(rows, Stamped(r.(status := Publicado), now)), c) == TotalArtigos(rows, c) + 1
  {
    var s := Stamped(r.(status := Publicado), now);
    TotalArtigosAfterUpsert(rows, s, c);
    var q := Lookup(rows, r.pk).value;
    var i :| 0 <= i < |rows| && rows[i] == q;
    var j :| 0 <= j < |rows| && rows[j] == r;
    assert !(i < j) && !(j < i);
  }

  /**
   * `total_artigos` as written filters on `publicado`, a Python property and not a field of the
   * table, so the ORM raises FieldError instead of counting. These are the field names of Artigo.
   */
  const ARTIGO_FIELDS: set<string> := {
    "id", "titulo", "slug", "resumo", "conteudo", "autor", "autor_id", "categoria", "categoria_id",
    "status", "destaque", "data_criacao", "data_publicacao", "data_atualizacao", "meta_descricao",
    "imagem_destaque", "tempo_leitura"
  }

  /** `self.artigos.filter(publicado=True).count()` as the ORM evaluates it. */
  function TotalArtigosAsWritten(rows: seq<Registro>, c: Categoria): (res: Result<nat, Erro>)
    ensures res.Failure? <==> "publicado" !in ARTIGO_FIELDS
    ensures res.Failure? ==> res.error == FieldError("publicado")
  {
    if "publicado" in ARTIGO_FIELDS then Success(TotalArtigos(rows, c))
    else Failure(FieldError("publicado"))
  }

  /** The query as written never yields a count. */
  lemma TotalArtigosAsWrittenFails(rows: seq<Registro>, c: Categoria)
    ensures TotalArtigosAsWritten(rows, c) == Failure(FieldError("publicado"))
  {
  }
}
