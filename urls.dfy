/**
 * The named routes of the `blog` URL namespace that the models reverse. A route is the name
 * of the URL pattern together with the keyword arguments passed to it; turning a route into a
 * path string is the URL resolver's business and is not part of this model.
 */
module Urls {
  import opened Wrappers

  datatype Rota =
    /** 'blog:artigos_por_categoria', path 'categoria/<slug>/' */
    | ArtigosPorCategoria(slug: string)
    /** 'blog:detalhe_artigo', path '<year>/<month>/<day>/<slug>/' */
    | DetalheArtigo(year: int, month: int, day: int, slug: string)
    /** 'blog:detalhe_artigo_rascunho', path 'rascunho/<pk>/'; `pk` is None on an unsaved instance, for which reverse fails */
    | DetalheArtigoRascunho(pk: Option<nat>)
}
