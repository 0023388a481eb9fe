# Blog models of cms-moderno, in Dafny

This project models the Django model layer of the `blog` application of cms-moderno
(`backend/apps/blog/models.py`): the `Categoria` and `Artigo` models, their declared
constraints and their derived queries, over an in-memory database.

- `Categoria` (module `Categorias`): a row with primary key, `nome`, `slug`, `descricao` and
  `cor` (default `#3498db`). `nome` and `slug` are unique columns, so inserting a duplicate of
  either fails with `DuplicateKey`. The default listing is ordered by `nome`, and
  `get_absolute_url` names the `artigos_por_categoria` route.
- `Artigo` (modules `Artigos` and `Blog`): a three-valued status (`Rascunho`, `Revisao`,
  `Publicado`, default `Rascunho`) and a nullable publication date. The `slug` is unique for the
  calendar day of `data_publicacao` and unconstrained while the date is null. The default
  listing is ordered by `-data_publicacao`. `get_absolute_url` picks the dated route
  `(year, month, day, slug)` or the draft route by `pk`. `publicado` tests the status, and
  `Categoria.total_artigos` counts the published articles of a category.
- `Blog.Artigo` is the model instance. Its `Save` stamps `dataPublicacao` in place with the
  injected clock value `now`, but only when the status is publicado and there is no date yet.
  It then writes the row into `Blog.Banco`, the database. Once the date is set, `save` never
  overwrites the date of the instance it is called on. The lemmas on `AfterSaves` follow any history of saves: starting without a
  date, the date is that of the first save made as publicado.
- Timestamps are abstract (`Timestamps`): a calendar date `(year, month, day)` plus a time of
  day. They are ordered as Python compares datetimes. The date is the part that
  `unique_for_date` and the dated route use.
- Routes (`Urls.Rota`) are the route name together with its arguments, not URL strings.
- The two `Meta.ordering` rules share one insertion sort (`Sorting`). It is proved to return a
  permutation of its input, ordered by the given relation.

The clock is a parameter (`now`), not a global. The database is a pair of sequences with
autoincrement counters, not the ORM.

## Model

| member | source | states |
|---|---|---|
| `Artigos.EstaPublicado` | backend/apps/blog/models.py:167-169 | `publicado` holds iff the status is publicado, so a new article (default rascunho) is not published |
| `Artigos.SameDaySlug` | backend/apps/blog/models.py:72-76 | two rows clash for `unique_for_date` only when both have a publication date, on the same calendar day, with the same slug |
| `Artigos.StampedDate` | backend/apps/blog/models.py:161-165 | a date already set is kept; saving as publicado always leaves a date; saving in any other status leaves the date unchanged; the only new value ever written is `now` |
| `Artigos.StampedDateExactly` | backend/apps/blog/models.py:163-164 | the date is newly set to `now` exactly when the status is publicado and there was no date |
| `Artigos.SaveKeepsPublicado` | backend/apps/blog/models.py:161-169 | `save` does not change `publicado`, which holds iff status is publicado; a publicado article leaves `save` with a date |
| `Artigos.SaveIdempotent` | backend/apps/blog/models.py:163 | saving twice with the same status gives the date of the first save |
| `Artigos.AfterSavesKeepsDate` | backend/apps/blog/models.py:163 | once an instance's date is set, no sequence of later saves of that instance changes it |
| `Artigos.AfterSavesFirstPublication` | backend/apps/blog/models.py:161-165 | starting without a date, the final date is the time of the first save made while publicado, whatever came before or after |
| `Artigos.AfterSavesNeverPublished` | backend/apps/blog/models.py:161-165 | an article never saved as publicado has no publication date |
| `Artigos.RepublishKeepsFirstDate` | backend/apps/blog/models.py:163 | publish, move to revisao, publish again: the first publication time stays |
| `Blog.Artigo.constructor` | backend/apps/blog/models.py:103-137 | a new instance is unsaved, status rascunho, no publication date, not featured, reading time 5 |
| `Blog.Artigo.Save` | backend/apps/blog/models.py:161-165 | the instance's new date is `StampedDate` of its old status, old date and `now`; no other field changes; the database then holds exactly what `SaveChecked` gives, and a new instance gets the next primary key; on a refusal the database and `pk` are untouched; the database invariant is kept |
| `Blog.Banco.Write` | backend/apps/blog/models.py:72-76 | the write is refused iff the date check finds another row with the same slug on the same day; otherwise the row is updated in place or inserted; the invariant (unique keys, unique-for-date, fresh counters) is kept |
| `Artigos.ConflictsOnDate` | backend/apps/blog/models.py:72-76 | an article without a date never conflicts; appending a row that passes the check keeps the table unique for date |
| `Artigos.UpsertKeepsUniqueForDate` | backend/apps/blog/models.py:72-76 | writing a row that passes the date check keeps every same-day slug pair distinct |
| `Artigos.Upsert` | backend/apps/blog/models.py:165 | after the write the row's primary key maps to the row, every other key maps to what it did before, and no other row appears |
| `Artigos.UpsertKeepsUniquePks` | backend/apps/blog/models.py:165 | the write keeps primary keys pairwise distinct |
| `Artigos.SaveChecked` | backend/apps/blog/models.py:161-165 | the stamped row is refused iff it conflicts on its day; otherwise it is stored under its key, and uniqueness of keys and of day-and-slug is preserved |
| `Artigos.SaveAfterFormValidation` | backend/apps/blog/models.py:72-76 | the ModelForm path checks the row before it is stamped, then stores the stamped row |
| `Artigos.FormValidationAdmitsSameDaySlug` | backend/apps/blog/models.py:72-76 | on that path a second same-slug article first published on a day that already has one is accepted, and the table stops being unique for date |
| `Artigos.SaveCheckedRejectsSameDaySlug` | backend/apps/blog/models.py:72-76 | the checked save refuses that same article |
| `Artigos.AbsoluteUrl` | backend/apps/blog/models.py:151-159 | dated route from the date's year, month, day and the slug when a date is set; draft route with `pk` otherwise |
| `Blog.Artigo.GetAbsoluteUrl` | backend/apps/blog/models.py:151-159 | on an instance: the route is dated iff there is a publication date, carries the slug and that date's day, else carries the instance's `pk` |
| `Artigos.RowUrlIdentifiesArticle` | backend/apps/blog/models.py:151-159 | in a table with unique keys and unique-for-date, an article's route designates that article and no other |
| `Artigos.Listing` | backend/apps/blog/models.py:142 | the default listing is a permutation of the table, most recently published first, undated rows last |
| `Artigos.InCategoria` | backend/apps/blog/models.py:94-100 | `categoria.artigos` holds exactly the rows referencing the category, each as many times as in the table |
| `Artigos.TotalArtigos` | backend/apps/blog/models.py:46-49 | `total_artigos` never exceeds the number of articles in the category |
| `Artigos.TotalArtigosIsPublishedCount` | backend/apps/blog/models.py:46-49 | with unique keys, `total_artigos` equals the number of distinct published articles of the category |
| `Artigos.TotalArtigosAfterUpsert` | backend/apps/blog/models.py:46-49 | saving a row changes `total_artigos` by the new row's share minus the replaced row's share |
| `Artigos.PublishingCountsOnce` | backend/apps/blog/models.py:46-49 | publishing a stored draft or reviewed article of the category raises its `total_artigos` by exactly one |
| `Artigos.TotalArtigosAsWritten` | backend/apps/blog/models.py:49 | the query fails with FieldError iff `publicado` is not a field name of Artigo |
| `Artigos.TotalArtigosAsWrittenFails` | backend/apps/blog/models.py:49 | as written, `total_artigos` raises FieldError for every category |
| `Categorias.Insert` | backend/apps/blog/models.py:12-21 | an insert is refused with DuplicateKey iff the name or the slug is taken; otherwise it appends the row and keeps names, slugs and keys unique |
| `Blog.Banco.CreateCategoria` | backend/apps/blog/models.py:12-31 | creating a category fails iff its name or slug is taken, leaving the table as it was; otherwise it appends the row with the next key and the default colour when none is given |
| `Categorias.Listing` | backend/apps/blog/models.py:38 | the category listing is a permutation of the table in ascending `nome` |
| `Categorias.ListingStrict` | backend/apps/blog/models.py:12-16 | with unique names, the listing has no repeated `nome` |
| `Categorias.AbsoluteUrl` | backend/apps/blog/models.py:43-44 | a category's URL is its article-listing route, keyed by its slug |
| `Categorias.AbsoluteUrlInjective` | backend/apps/blog/models.py:17-21 | distinct categories of a valid table have distinct routes |

## Findings

| source | as written | input that shows it | evidently intended | confidence | as-written member | corrected member |
|---|---|---|---|---|---|---|
| backend/apps/blog/models.py:72-76 | `unique_for_date` is checked only by `full_clean` (ModelForm, admin), which runs before `save` stamps the date; a first publication is checked with a null date, so the check is skipped | table holds article "intro" dated day D; a new article slug "intro", status publicado, no date, saved on day D | no two articles share a slug on one publication day | medium, not executed | `Artigos.SaveAfterFormValidation`, `Artigos.FormValidationAdmitsSameDaySlug` | `Artigos.SaveChecked`, `Blog.Artigo.Save` |
| backend/apps/blog/models.py:49 | `filter(publicado=True)` names a Python property, not a field, so the ORM raises FieldError | any category | count the articles whose status is publicado | high, not executed | `Artigos.TotalArtigosAsWritten`, `Artigos.TotalArtigosAsWrittenFails` | `Artigos.TotalArtigos`, `Artigos.TotalArtigosIsPublishedCount` |

`Blog.Artigo.Save` therefore runs the date check on the row as it will be stored, after the
stamp, inside the save. Django's own `Model.save` performs no `unique_for_date` check at all.

## Left out

- ORM and persistence: querysets, the indexes at models.py:143-146, transactions and
  concurrency. The database is two in-memory sequences; new primary keys are one more than the
  largest stored key.
- URL resolution: `reverse` is not modelled; routes are names and arguments. In urls.py, the
  views `artigos_por_categoria`, `detalhe_artigo` and `detalhe_artigo_rascunho` are not defined
  in views.py, so there is no view behaviour to model.
- Urls.Rota: `DetalheArtigoRascunho(None)`, the route of an unsaved undated instance, is not a
  valid route: `reverse` with `pk=None` against `<int:pk>` raises NoReverseMatch, which is not
  modelled.
- Draft access control (author or staff only): no code implements it. Lookups by date and slug
  or by id are not modelled either, because views.py only renders templates.
- Blog.Artigo.Save: the arguments the source forwards to `super().save` (`update_fields`,
  `force_insert`, `force_update`, `using`) are not modelled; the model always writes every
  column. With `update_fields` that leaves out `data_publicacao`, the stamp stays in memory
  only, and the stored row is publicado with a NULL date.
- Blog.Artigo.Save: the date is write-once per instance, not per stored row. A second
  instance of the same row, loaded before the first publication, has no date. When saved as
  publicado, it stamps its own `now` and writes over the stored date, in Django as in the model.
- Artigos.InCategoria: keeps table order; the related manager orders by `-data_publicacao`
  (use `Listing` for that order). Only its count is used, which does not depend on order.
- Editing `data_publicacao` directly: it is an ordinary editable field, so code or a form can
  set or change it; only `save` is proved never to overwrite a set date.
- `imagem_destaque` upload storage, `max_length`, `help_text`, `blank`, the `__str__`
  methods, and the `auto_now`/`auto_now_add` timestamps (`criado_em`, `atualizado_em`,
  `data_criacao`, `data_atualizacao`).
- `total_comentarios`: the Comentario model is not part of this model.
- `on_delete` (CASCADE on `autor`, SET_NULL on `categoria`) and foreign-key integrity: `autor`
  and `categoria` are plain key values.
- Status choices: Django's CharField accepts any string on `save` and checks choices only in
  `full_clean`; the model's status is always one of the three values.
- Updating or deleting a category: only creation is modelled, because the model overrides
  neither.
- Artigos.Listing: places articles without a date after dated ones. SQLite and MySQL order
  NULLs that way for a descending order; PostgreSQL puts them first.
- Categorias.Listing: orders names by character code; database collations are not modelled.
- Artigos.SameDaySlug: compares the stored calendar date; the time-zone conversion Django
  applies to `__day`/`__month`/`__year` lookups is not modelled.
- Artigos.ConflictsOnDate: excludes the row's own primary key; Django excludes it only for an
  instance loaded from the database (`_state.adding` is false).
