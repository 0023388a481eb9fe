/**
 * The models at run time: `Banco`, the database holding the Categoria and Artigo tables, and
 * `Artigo`, a model instance whose `Save` stamps its own publication date in place and then
 * writes its row.
 */
module Blog {
  import opened Wrappers
  import opened Errors
  import opened Timestamps
  import opened Urls
  import opened Categorias
  import opened Artigos

  class Banco {
    var categorias: seq<Categoria>
    var artigos: seq<Registro>
    /** The autoincrement counters of the two tables. */
    var nextCategoriaPk: nat
    var nextArtigoPk: nat

    /** The constraints the two models declare, plus fresh autoincrement counters. */
    ghost predicate Valid()
      reads this
    {
      && Categorias.Unique(categorias)
      && (forall c :: c in categorias ==> c.pk < nextCategoriaPk)
      && UniquePks(artigos)
      && PksBelow(artigos, nextArtigoPk)
      && UniqueForDate(artigos)
    }

    constructor ()
      ensures Valid()
      ensures categorias == [] && artigos == []
      ensures nextCategoriaPk == 1 && nextArtigoPk == 1
    {
      categorias, artigos := [], [];
      nextCategoriaPk, nextArtigoPk := 1, 1;
    }

    /** `Categoria.objects.create(...)`; `cor` falls back to its default when not given. */
    method CreateCategoria(nome: string, slug: string, descricao: string, cor: Option<string>)
      returns (res: Result<Categoria, Erro>)
      requires Valid()
      modifies this
      ensures Valid()
      ensures res.Failure? <==> KeyTaken(old(categorias), nome, slug)
      ensures res.Failure? ==> res.error == DuplicateKey
                               && categorias == old(categorias) && nextCategoriaPk == old(nextCategoriaPk)
      ensures res.Success? ==> res.value == Categoria(old(nextCategoriaPk), nome, slug, descricao, cor.GetOr(DEFAULT_COR))
                               && categorias == old(categorias) + [res.value]
                               && nextCategoriaPk == old(nextCategoriaPk) + 1
      ensures artigos == old(artigos) && nextArtigoPk == old(nextArtigoPk)
    {
      var c := Categoria(nextCategoriaPk, nome, slug, descricao, cor.GetOr(DEFAULT_COR));
      var inserted := Categorias.Insert(categorias, c);
      if inserted.Failure? {
        res := Failure(inserted.error);
      } else {
        categorias := inserted.value;
        nextCategoriaPk := nextCategoriaPk + 1;
        res := Success(c);
      }
    }

    /**
     * The persistence step of `save` (`super().save()`) with the `unique_for_date` date check:
     * UPDATE of the row with `r.pk`, or INSERT when there is none.
     */
    method Write(r: Registro) returns (res: Outcome<Erro>)
      requires Valid()
      modifies this
      ensures Valid()
      ensures res.Fail? <==> ConflictsOnDate(old(artigos), r)
      ensures res.Fail? ==> res.error == SlugNotUniqueForDate
                            && artigos == old(artigos) && nextArtigoPk == old(nextArtigoPk)
      ensures res.Pass? ==> artigos == Upsert(old(artigos), r)
                            && nextArtigoPk == (if r.pk < old(nextArtigoPk) then old(nextArtigoPk) else r.pk + 1)
      ensures categorias == old(categorias) && nextCategoriaPk == old(nextCategoriaPk)
    {
      if ConflictsOnDate(artigos, r) {
        res := Fail(SlugNotUniqueForDate);
        return;
      }
      UpsertKeepsUniquePks(artigos, r);
      UpsertKeepsUniqueForDate(artigos, r);
      artigos := Upsert(artigos, r);
      if nextArtigoPk <= r.pk {
        nextArtigoPk := r.pk + 1;
      }
      res := Pass;
    }
  }

  /** An Artigo model instance: the fields `save` reads and writes. */
  class Artigo {
    var pk: Option<nat>
    var titulo: string
    var slug: string
    var resumo: string
    var conteudo: string
    var autor: nat
    var categoria: Option<nat>
    var status: Status
    var destaque: bool
    var dataPublicacao: Option<Timestamp>
    var metaDescricao: string
    var tempoLeitura: nat

    /** A new, unsaved instance with the model's field defaults. */
    constructor (titulo: string, slug: string, resumo: string, conteudo: string, autor: nat, categoria: Option<nat>)
      ensures pk == None && status == DEFAULT_STATUS && dataPublicacao == None
      ensures !destaque && metaDescricao == "" && tempoLeitura == DEFAULT_TEMPO_LEITURA
      ensures this.titulo == titulo && this.slug == slug && this.resumo == resumo
      ensures this.conteudo == conteudo && this.autor == autor && this.categoria == categoria
    {
      this.pk := None;
      this.titulo, this.slug, this.resumo, this.conteudo := titulo, slug, resumo, conteudo;
      this.autor, this.categoria := autor, categoria;
      this.status := DEFAULT_STATUS;
      this.destaque := false;
      this.dataPublicacao := None;
      this.metaDescricao := "";
      this.tempoLeitura := DEFAULT_TEMPO_LEITURA;
    }

    /** The instance's field values as the row stored under primary key `p`. */
    function Fields(p: nat): Registro
      reads this
    {
      Registro(p, titulo, slug, resumo, conteudo, autor, categoria, status, destaque,
               dataPublicacao, metaDescricao, tempoLeitura)
    }

    /** `get_absolute_url` of this instance. */
    function GetAbsoluteUrl(): (u: Rota)
      reads this
      ensures dataPublicacao.Some? <==> u.DetalheArtigo?
      ensures u.DetalheArtigo? ==> u.slug == slug && Date(u.year, u.month, u.day) == dataPublicacao.value.date
      ensures u.DetalheArtigoRascunho? ==> u.pk == pk
      ensures dataPublicacao.None? ==> u == DetalheArtigoRascunho(pk)
    {
      Artigos.AbsoluteUrl(slug, dataPublicacao, pk)
    }

    /**
     * `save`: stamps `dataPublicacao` with `now` when the instance is publicado and has no date
     * yet, then writes the row (a new instance takes the next primary key).
     */
    method Save(db: Banco, now: Timestamp) returns (res: Outcome<Erro>)
      requires db.Valid()
      modifies this, db
      ensures db.Valid()
      ensures dataPublicacao == StampedDate(old(status), old(dataPublicacao), now)
      ensures status == old(status) && slug == old(slug) && titulo == old(titulo) && resumo == old(resumo)
      ensures conteudo == old(conteudo) && autor == old(autor) && categoria == old(categoria)
      ensures destaque == old(destaque) && metaDescricao == old(metaDescricao) && tempoLeitura == old(tempoLeitura)
      ensures var p := if old(pk).Some? then old(pk).value else old(db.nextArtigoPk);
              var saved := SaveChecked(old(db.artigos), old(Fields(p)), now);
              && (res.Pass? <==> saved.Success?)
              && (saved.Success? ==> db.artigos == saved.value && pk == Some(p))
              && db.nextArtigoPk == (if saved.Success? && p >= old(db.nextArtigoPk) then p + 1 else old(db.nextArtigoPk))
              && (saved.Failure? ==> res.error == saved.error && db.artigos == old(db.artigos) && pk == old(pk))
      ensures db.categorias == old(db.categorias) && db.nextCategoriaPk == old(db.nextCategoriaPk)
    {
      if status == Publicado && dataPublicacao.None? {
        dataPublicacao := Some(now);
      }
      var p := if pk.Some? then pk.value else db.nextArtigoPk;
      assert Fields(p) == Stamped(old(Fields(p)), now);
      res := db.Write(Fields(p));
      if res.Pass? {
        pk := Some(p);
      }
    }
  }

  /**
   * A category "Python" gets an article; while it is a draft the category counts no published
   * article; once it is saved as publicado it counts one and carries the time of that save.
   */
  method PublicationScenario(t1: Timestamp, t2: Timestamp)
  {
    var db := new Banco();
    var python := db.CreateCategoria("Python", "python", "", None);
    assert python.Success?;
    var c := python.value;
    assert c.cor == DEFAULT_COR;

    var a := new Artigo("Introdução", "intro", "", "", 1, Some(c.pk));
    var saved := a.Save(db, t1);
    assert saved.Pass? && a.pk == Some(1);
    assert a.dataPublicacao == None;
    assert db.artigos == [a.Fields(1)];
    assert TotalArtigos(db.artigos, c) == 0;

    a.status := Publicado;
    saved := a.Save(db, t2);
    assert a.dataPublicacao == Some(t2);
    assert db.artigos == [a.Fields(1)];
    assert TotalArtigos(db.artigos, c) == 1;

    a.status := Revisao;
    saved := a.Save(db, t1);
    a.status := Publicado;
    saved := a.Save(db, t1);
    assert a.dataPublicacao == Some(t2);

    var dup := db.CreateCategoria("Python", "py", "", None);
    assert dup == Failure(DuplicateKey);
  }

  /** The same slug published on two different days is stored twice; a third on one of those days is refused. */
  method SameSlugScenario(t1: Timestamp, t2: Timestamp)
    requires t1.date != t2.date
  {
    var db := new Banco();
    var b := new Artigo("B", "intro", "", "", 1, None);
    b.status := Publicado;
    var savedB := b.Save(db, t1);
    assert savedB.Pass?;

    var c := new Artigo("C", "intro", "", "", 1, None);
    c.status := Publicado;
    var savedC := c.Save(db, t2);
    assert savedC.Pass?;
    assert c.GetAbsoluteUrl() != b.GetAbsoluteUrl();

    var d := new Artigo("D", "intro", "", "", 1, None);
    d.status := Publicado;
    var savedD := d.Save(db, t1);
    assert savedD == Fail(SlugNotUniqueForDate);
    assert d.pk == None;
  }
}
