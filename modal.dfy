/** The project modal: the images it collects for a project, the carousel
    over them, and what opening, closing and the keyboard do to its state. */
module Modal {

  import opened Seqs
  import opened Text
  import opened ProjectData
  import opened Escape
  import opened ProjectText

  /** The image shown when a project has none. */
  const Placeholder := "./img/placeholder-thumb.jpg"
  /** The project id whose hosting link the modal hides. */
  const Sentinel := "sisvac"
  /** The highest numbered image field, `imagem10`. */
  const LastSlot := 10
  const TitleFallback := "Projeto"
  const LinkFallback := "#"

  /** The value of field `imagem{n}`, "" when absent. */
  function Slot(p: Project, n: int): string
  {
    if n in p.extraImages then p.extraImages[n] else ""
  }

  /** The image fields in the order the modal looks at them:
      `imagem`, then `imagem2` to `imagem10`. */
  function Candidates(p: Project): seq<string>
  {
    [p.imagem] + seq(LastSlot - 1, k => Slot(p, k + 2))
  }

  /** Position 0 holds `imagem` and position n - 1 holds `imagem{n}`. */
  lemma CandidateSlots(p: Project)
    ensures var c := Candidates(p);
      && |c| == LastSlot && c[0] == p.imagem
      && forall n :: 2 <= n <= LastSlot ==> c[n - 1] == Slot(p, n)
  {
  }

  /** The images of a project: the present image fields in order, or the
      thumbnail when there are none. */
  function CollectedImages(p: Project): seq<string>
  {
    var found := Filter(Present, Candidates(p));
    if found != [] then found else if Present(p.thumbnail) then [p.thumbnail] else []
  }

  /** What the collected images are: at most ten, none empty; exactly the
      present image fields, in field order, when there is one; otherwise the
      thumbnail alone, or nothing when that is absent too. */
  lemma CollectedImagesFacts(p: Project)
    ensures var imgs := CollectedImages(p);
      && ((exists n :: 0 <= n < LastSlot && Present(Candidates(p)[n])) ==>
            Embeds(imgs, Candidates(p), Positions(Present, Candidates(p))))
      && ((forall n :: 0 <= n < LastSlot ==> !Present(Candidates(p)[n])) ==>
            imgs == (if Present(p.thumbnail) then [p.thumbnail] else []))
    ensures forall n :: 0 <= n < LastSlot ==>
      (Present(Candidates(p)[n]) <==> n in Positions(Present, Candidates(p)))
  {
    var c := Candidates(p);
    var found := Filter(Present, c);
    CandidateSlots(p);
    FilterExact(Present, c);
    forall n | 0 <= n < LastSlot && Present(c[n])
      ensures found != []
    {
      assert n in Positions(Present, c);
    }
    if found != [] {
      var n :| 0 <= n < |c| && c[n] == found[0];
    }
  }

  /** At most ten images are collected, and none of them is empty. */
  lemma CollectedImagesPresent(p: Project)
    ensures |CollectedImages(p)| <= LastSlot
    ensures forall k :: 0 <= k < |CollectedImages(p)| ==> Present(CollectedImages(p)[k])
  {
  }

  /** `coletarImagensProjeto`. */
  method CollectImages(p: Project) returns (imgs: seq<string>)
    ensures imgs == CollectedImages(p)
  {
    var c := Candidates(p);
    CandidateSlots(p);
    imgs := [];
    if Present(p.imagem) {
      imgs := imgs + [p.imagem];
    }
    assert imgs == Filter(Present, c[..1]);
    for i := 2 to LastSlot + 1
      invariant imgs == Filter(Present, c[..i - 1])
    {
      var v := Slot(p, i);
      FilterSnoc(Present, c[..i - 1], v);
      assert c[..i] == c[..i - 1] + [v];
      if Present(v) {
        imgs := imgs + [v];
      }
    }
    assert c[..LastSlot] == c;
    if |imgs| == 0 && Present(p.thumbnail) {
      imgs := imgs + [p.thumbnail];
    }
    FilterKeepsAll(Present, imgs);
    imgs := Filter(Present, imgs);
  }

  /** `a % n` as JavaScript computes it: truncated, with the sign of `a`. */
  function JsRem(a: int, n: int): (r: int)
    requires n > 0
    ensures a >= 0 ==> 0 <= r < n
    ensures a < 0 ==> -n < r <= 0
    ensures a == (if a >= 0 then a / n else -((-a) / n)) * n + r
  {
    if a >= 0 then a % n else -((-a) % n)
  }

  /** The carousel's index arithmetic, `((k % n) + n) % n`. */
  function WrapIndex(k: int, n: int): int
    requires n > 0
  {
    JsRem(JsRem(k, n) + n, n)
  }

  /** The wrapped index is the mathematical remainder of `k` by `n`, so it
      always lies in `[0, n)`, even for negative `k`. */
  lemma WrapIsModulo(k: int, n: int)
    requires n > 0
    ensures WrapIndex(k, n) == k % n
    ensures 0 <= WrapIndex(k, n) < n
  {
    if k >= 0 {
      ModUnique(k % n + n, n, 1, k % n);
    } else {
      var q, m := (-k) / n, (-k) % n;
      assert -k == q * n + m;
      if m == 0 {
        ModUnique(k, n, -q, 0);
        ModUnique(n, n, 1, 0);
      } else {
        ModUnique(k, n, -q - 1, n - m);
        ModUnique(n - m, n, 0, n - m);
      }
    }
  }

  /** The remainder is the unique one in range. */
  lemma ModUnique(a: int, n: int, q: int, r: int)
    requires n > 0 && 0 <= r < n && a == q * n + r
    ensures a % n == r
  {
    var d := q - a / n;
    assert d * n == q * n - (a / n) * n;
    if d > 0 {
      MulAtLeast(d, n);
    } else if d < 0 {
      MulAtLeast(-d, n);
    }
  }

  lemma {:induction false} MulAtLeast(d: int, n: int)
    requires d >= 1 && n > 0
    ensures d * n >= n
  {
    if d > 1 {
      MulAtLeast(d - 1, n);
      assert d * n == (d - 1) * n + n;
    }
  }

  /** Next and previous move one place and wrap at both ends, and each
      undoes the other. */
  lemma StepsWrap(i: int, n: int)
    requires 0 <= i < n
    ensures WrapIndex(i + 1, n) == (if i + 1 < n then i + 1 else 0)
    ensures WrapIndex(i - 1, n) == (if i > 0 then i - 1 else n - 1)
    ensures WrapIndex(WrapIndex(i + 1, n) - 1, n) == i
    ensures WrapIndex(WrapIndex(i - 1, n) + 1, n) == i
  {
    if i + 1 < n {
      WrapInRange(i + 1, n);
      WrapInRange(i, n);
    } else {
      WrapAbove(n);
      WrapBelow(n);
    }
    if i > 0 {
      WrapInRange(i - 1, n);
      WrapInRange(i, n);
    } else {
      WrapBelow(n);
      WrapAbove(n);
    }
  }

  /** An index already in range is left alone. */
  lemma WrapInRange(k: int, n: int)
    requires 0 <= k < n
    ensures WrapIndex(k, n) == k
  {
    WrapIsModulo(k, n);
    ModUnique(k, n, 0, k);
  }

  /** One past the end wraps to the first index. */
  lemma WrapAbove(n: int)
    requires n > 0
    ensures WrapIndex(n, n) == 0
  {
    WrapIsModulo(n, n);
    ModUnique(n, n, 1, 0);
  }

  /** One before the start wraps to the last index. */
  lemma WrapBelow(n: int)
    requires n > 0
    ensures WrapIndex(-1, n) == n - 1
  {
    WrapIsModulo(-1, n);
    ModUnique(-1, n, -1, n - 1);
  }

  /** The counter under the carousel, "i+1 / n". */
  function CounterText(i: nat, n: nat): string
  {
    Decimal(i + 1) + " / " + Decimal(n)
  }

  /** The id that hides the hosting link, compared case-insensitively. */
  predicate IsSentinel(id: string)
  {
    Lower(id) == Sentinel
  }

  /** The rule ignores case, and only six-letter ids can trigger it. */
  lemma SentinelIgnoresCase(id: string)
    ensures IsSentinel(Lower(id)) <==> IsSentinel(id)
    ensures IsSentinel(id) ==> |id| == |Sentinel|
    ensures IsSentinel("SisVac") && !IsSentinel("sisvac2")
  {
    LowerIdempotent(id);
    assert Lower("SisVac") == Sentinel;
    assert Lower("sisvac2")[6] == '2';
  }

  /** The image a project without a carousel shows:
      `(imagens[0] || thumbnail) || placeholder`. */
  function SingleImage(p: Project, imgs: seq<string>): string
  {
    OrElse(OrElse(if |imgs| > 0 then imgs[0] else "", p.thumbnail), Placeholder)
  }

  /** For a project without a carousel, the single image is its one
      collected image, or the placeholder; the thumbnail fallback in the
      modal is never reached on its own, since collecting already used it. */
  lemma SingleImageSource(p: Project)
    requires |CollectedImages(p)| <= 1
    ensures var imgs := CollectedImages(p);
      SingleImage(p, imgs) == if |imgs| == 1 then imgs[0] else Placeholder
    ensures Present(SingleImage(p, CollectedImages(p)))
  {
    var imgs := CollectedImages(p);
    CollectedImagesPresent(p);
    if |imgs| == 0 {
      assert !Present(p.thumbnail);
    }
  }

  /** The description block of the modal: the escaped description in a paragraph. */
  function DescriptionHtml(p: Project): string
  {
    "<p>" + EscapeHtml(ModalDescription(Some(p))) + "</p>"
  }

  /** The paragraph holds the description in a form the browser reads as
      plain text, and unescaping it gives the description back. */
  lemma DescriptionHtmlFacts(p: Project)
    ensures var h := DescriptionHtml(p);
      && |h| >= 7 && h[..3] == "<p>" && h[|h| - 4..] == "</p>"
      && Unescape(h[3..|h| - 4]) == ModalDescription(Some(p))
      && Inert(h[3..|h| - 4])
  {
    var d := ModalDescription(Some(p));
    UnescapeEscapeHtml(d);
    EscapeHtmlInert(d);
    ParagraphParts(EscapeHtml(d));
  }

  /** The parts of a paragraph element around its content. */
  lemma ParagraphParts(e: string)
    ensures var h := "<p>" + e + "</p>";
      |h| >= 7 && h[..3] == "<p>" && h[|h| - 4..] == "</p>" && h[3..|h| - 4] == e
  {
    var h := "<p>" + e + "</p>";
    assert h[..3] == "<p>";
    assert h[|h| - 4..] == "</p>";
    assert h[3..|h| - 4] == e;
  }

  /** The texts and links of an open modal. */
  datatype ModalText = ModalText(hostingVisible: bool, hostingHref: string, title: string,
    descriptionHtml: string, technologies: string, repoHref: string)

  /** What opening the modal on `p` shows: the hosting link unless `p` is
      the sentinel project, whose link stays `oldHref`; the title, the
      description, the technologies and the repository link, each with its
      fallback. */
  function TextOf(p: Project, oldHref: string): ModalText
  {
    var sentinel := IsSentinel(p.id);
    ModalText(
      !sentinel,
      if sentinel then oldHref else OrElse(p.linkHospedagem, LinkFallback),
      OrElse(p.titulo, TitleFallback),
      DescriptionHtml(p),
      TechText(p.tecnologias),
      OrElse(p.linkRepositorio, LinkFallback))
  }

  /** The links are never empty, the sentinel project alone keeps its
      previous hosting link and hides it, and a present title or link is
      shown as given. */
  lemma TextOfFacts(p: Project, oldHref: string)
    ensures var t := TextOf(p, oldHref);
      && (t.hostingVisible <==> !IsSentinel(p.id))
      && (IsSentinel(p.id) ==> t.hostingHref == oldHref)
      && (!IsSentinel(p.id) ==> t.hostingHref != "" && (Present(p.linkHospedagem) ==> t.hostingHref == p.linkHospedagem))
      && t.title != "" && (Present(p.titulo) ==> t.title == p.titulo)
      && t.repoHref != "" && (Present(p.linkRepositorio) ==> t.repoHref == p.linkRepositorio)
      && t.descriptionHtml == DescriptionHtml(p)
      && t.technologies == TechText(p.tecnologias)
  {
  }

  /** The modal's state. `bound` says whether the page has the modal's
      elements; without them every operation leaves the state alone.
      The carousel holds two or more images or none. */
  class ProjectModal {
    const bound: bool
    var hidden: bool
    var carouselImages: seq<string>
    var carouselIndex: int
    var imageSrc: string
    var counter: string
    var carouselActive: bool
    var controlsVisible: bool
    var text: ModalText

    /** The carousel holds two or more present images, or none, and its
        index points into it. */
    ghost predicate WellFormed()
      reads this`carouselImages, this`carouselIndex
    {
      && |carouselImages| != 1
      && (carouselImages == [] ==> carouselIndex == 0)
      && (carouselImages != [] ==> 0 <= carouselIndex < |carouselImages|)
      && (forall k :: 0 <= k < |carouselImages| ==> Present(carouselImages[k]))
      && (!bound ==> carouselImages == [])
    }

    /** A running carousel shows its current image and position. */
    ghost predicate Showing()
      reads this`carouselImages, this`carouselIndex, this`imageSrc, this`counter
      requires WellFormed()
    {
      carouselImages != [] ==>
        && imageSrc == carouselImages[carouselIndex]
        && counter == CounterText(carouselIndex, |carouselImages|)
    }

    /** The carousel styling and controls follow the carousel; a closed
        modal has none, and a page without the modal's elements never
        shows it. */
    ghost predicate Consistent()
      reads this`carouselImages, this`carouselActive, this`controlsVisible, this`hidden
    {
      && (carouselActive <==> carouselImages != [])
      && (!hidden ==> (controlsVisible <==> carouselImages != []))
      && (hidden ==> carouselImages == [])
      && (!bound ==> hidden)
    }

    ghost predicate Valid()
      reads this`carouselImages, this`carouselIndex, this`imageSrc, this`counter,
        this`carouselActive, this`controlsVisible, this`hidden
    {
      WellFormed() && Showing() && Consistent()
    }

    /** The images of `p` are on show: a carousel over them, starting at
        the first, when there are two or more; otherwise the single image,
        no carousel, and the counter left at `oldCounter`. */
    ghost predicate ImagesShown(p: Project, oldCounter: string)
      reads this`carouselImages, this`carouselIndex, this`imageSrc, this`counter,
        this`carouselActive, this`controlsVisible
    {
      var imgs := CollectedImages(p);
      && carouselIndex == 0
      && (|imgs| > 1 ==>
            && carouselImages == imgs && imageSrc == imgs[0] && counter == CounterText(0, |imgs|)
            && carouselActive && controlsVisible)
      && (|imgs| <= 1 ==>
            && carouselImages == [] && imageSrc == SingleImage(p, imgs) && counter == oldCounter
            && !carouselActive && !controlsVisible)
    }

    /** A closed modal, with or without its elements on the page. */
    constructor (bound: bool)
      ensures Valid()
      ensures this.bound == bound && hidden && carouselImages == []
    {
      this.bound := bound;
      hidden := true;
      carouselImages := [];
      carouselIndex := 0;
      imageSrc := "";
      counter := "";
      carouselActive := false;
      controlsVisible := false;
      text := ModalText(true, "", "", "", "", "");
    }

    /** `mostrarImagemIndex`: shows image `k`, wrapped into range. */
    method ShowIndex(k: int)
      requires WellFormed()
      modifies this`carouselIndex, this`imageSrc, this`counter
      ensures WellFormed() && Showing()
      ensures if bound && carouselImages != [] then
          && carouselIndex == k % |carouselImages|
          && imageSrc == carouselImages[carouselIndex]
          && counter == CounterText(carouselIndex, |carouselImages|)
        else unchanged(this)
    {
      if !bound || |carouselImages| == 0 {
        return;
      }
      var n := |carouselImages|;
      WrapIsModulo(k, n);
      carouselIndex := WrapIndex(k, n);
      imageSrc := carouselImages[carouselIndex];
      counter := CounterText(carouselIndex, n);
    }

    /** `mostrarImagemProxima`: one image on, back to the first after the last. */
    method Next()
      requires Valid()
      modifies this`carouselIndex, this`imageSrc, this`counter
      ensures Valid()
      ensures bound && carouselImages != [] ==>
        carouselIndex == (if old(carouselIndex) + 1 < |carouselImages| then old(carouselIndex) + 1 else 0)
      ensures !bound || carouselImages == [] ==> unchanged(this)
    {
      if |carouselImages| == 0 {
        return;
      }
      StepsWrap(carouselIndex, |carouselImages|);
      WrapIsModulo(carouselIndex + 1, |carouselImages|);
      ShowIndex(carouselIndex + 1);
    }

    /** `mostrarImagemAnterior`: one image back, to the last before the first. */
    method Previous()
      requires Valid()
      modifies this`carouselIndex, this`imageSrc, this`counter
      ensures Valid()
      ensures bound && carouselImages != [] ==>
        carouselIndex == (if old(carouselIndex) > 0 then old(carouselIndex) - 1 else |carouselImages| - 1)
      ensures !bound || carouselImages == [] ==> unchanged(this)
    {
      if |carouselImages| == 0 {
        return;
      }
      StepsWrap(carouselIndex, |carouselImages|);
      WrapIsModulo(carouselIndex - 1, |carouselImages|);
      ShowIndex(carouselIndex - 1);
    }

    /** The image part of opening the modal: a carousel over two or more
        images, else one image and no carousel. */
    method SetImages(p: Project)
      requires bound && WellFormed()
      modifies this`carouselImages, this`carouselIndex, this`imageSrc, this`counter,
        this`controlsVisible, this`carouselActive
      ensures WellFormed() && Showing()
      ensures (carouselActive <==> carouselImages != []) && (controlsVisible <==> carouselImages != [])
      ensures ImagesShown(p, old(counter))
    {
      var imgs := CollectImages(p);
      CollectedImagesPresent(p);
      if |imgs| > 1 {
        carouselImages := imgs;
        carouselIndex := 0;
        ShowIndex(0);
        controlsVisible := true;
        carouselActive := true;
      } else {
        imageSrc := SingleImage(p, imgs);
        controlsVisible := false;
        carouselImages := [];
        carouselIndex := 0;
        carouselActive := false;
      }
    }

    /** `abrirModalProjeto`: fills the modal from `p` and shows it. */
    method Open(p: Project)
      requires Valid()
      modifies this
      ensures Valid()
      ensures bound || unchanged(this)
      ensures bound ==> !hidden && ImagesShown(p, old(counter)) && text == TextOf(p, old(text).hostingHref)
    {
      if !bound {
        assert unchanged(this);
        return;
      }
      SetImages(p);
      text := TextOf(p, text.hostingHref);
      hidden := false;
    }

    /** `fecharModal`: hides the modal and clears the carousel. */
    method Close()
      requires Valid()
      modifies this`hidden, this`carouselImages, this`carouselIndex, this`carouselActive
      ensures Valid()
      ensures bound ==> hidden && carouselImages == [] && carouselIndex == 0 && !carouselActive
      ensures !bound ==> unchanged(this)
    {
      if !bound {
        return;
      }
      hidden := true;
      carouselImages := [];
      carouselIndex := 0;
      carouselActive := false;
    }

    /** A click on the modal; `onBackdrop` says whether it landed on the
        backdrop itself rather than on the content. */
    method Click(onBackdrop: bool)
      requires Valid()
      modifies this`hidden, this`carouselImages, this`carouselIndex, this`carouselActive
      ensures Valid()
      ensures onBackdrop && bound ==> hidden && carouselImages == []
      ensures !onBackdrop ==> unchanged(this)
    {
      if onBackdrop {
        Close();
      }
    }

    /** The document's key handler: Escape closes an open modal; the
        arrow keys move an open carousel; anything else changes nothing. */
    method KeyDown(key: string)
      requires Valid()
      modifies this`hidden, this`carouselImages, this`carouselIndex, this`carouselActive,
        this`imageSrc, this`counter
      ensures Valid()
      ensures key == "Escape" && bound && !old(hidden) ==>
        && hidden && carouselImages == [] && carouselIndex == 0 && !carouselActive
        && imageSrc == old(imageSrc) && counter == old(counter)
      ensures key == "ArrowRight" && bound && !old(hidden) && |old(carouselImages)| > 1 ==>
        && carouselImages == old(carouselImages)
        && carouselIndex == (if old(carouselIndex) + 1 < |carouselImages| then old(carouselIndex) + 1 else 0)
      ensures key == "ArrowLeft" && bound && !old(hidden) && |old(carouselImages)| > 1 ==>
        && carouselImages == old(carouselImages)
        && carouselIndex == (if old(carouselIndex) > 0 then old(carouselIndex) - 1 else |carouselImages| - 1)
      ensures old(hidden) || !bound || (key != "Escape" && (carouselImages == [] || (key != "ArrowLeft" && key != "ArrowRight"))) ==>
        unchanged(this)
    {
      if key == "Escape" && bound && !hidden {
        Close();
      }
      if !bound || hidden {
        return;
      }
      if (key == "ArrowLeft" || key == "ArrowRight") && |carouselImages| > 1 {
        if key == "ArrowLeft" {
          Previous();
        }
        if key == "ArrowRight" {
          Next();
        }
      }
    }
  }
}
