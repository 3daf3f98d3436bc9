/** A project record as the page reads it from the data file. */
module ProjectData {

  import opened Seqs

  /** One portfolio entry. A text field that is absent is the empty
      string: the page script treats an absent field and "" alike in every
      test it makes on them. `tecnologias` is None when the field is not an
      array. `extraImages` maps n to the value of field `imagem{n}`. */
  datatype Project = Project(
    id: string,
    titulo: string,
    resumo: string,
    descricao: string,
    descricaoDetalhada: string,
    tecnologias: Option<seq<string>>,
    thumbnail: string,
    imagem: string,
    extraImages: map<int, string>,
    linkHospedagem: string,
    linkRepositorio: string,
    featured: bool)

  /** A value present in the JavaScript sense: a non-empty string. */
  predicate Present(s: string)
  {
    s != ""
  }

  /** `s || fallback`. */
  function OrElse(s: string, fallback: string): string
  {
    if Present(s) then s else fallback
  }
}
