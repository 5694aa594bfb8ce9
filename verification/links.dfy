/**
 * Link resolution of the output device: what a link annotation of the
 * page becomes in the document, either a link to a page of the same book
 * or a link to a web address. Destinations follow section 12.3.2.2 of
 * ISO 32000-1; the document catalog and the page's coordinate transform
 * are parameters.
 */
module Links {
  import opened Wrappers
  import opened Geometry
  import Numeric
  import XmlWriter
  import Markup

  /** The kinds of explicit destination of section 12.3.2.2 of ISO 32000-1. */
  datatype DestKind = DestXYZ | DestFit | DestFitH | DestFitV | DestFitR | DestFitB | DestFitBH | DestFitBV

  /** How a destination names its page: an indirect reference to a page object, or a page number. */
  datatype PageTarget = PageRef(num: int, gen: int) | PageNumber(page: int)

  /** A link destination, with the `isOk` of the renderer. */
  datatype Dest = Dest(ok: bool, target: PageTarget, kind: DestKind, changeLeft: bool, changeTop: bool, left: real, top: real)

  /**
   * A link action, with the `isOk` of the renderer: a web address, a
   * destination in this document (direct or named), a destination in
   * another document, or any other action.
   */
  datatype Action =
    | UriAction(ok: bool, uri: Option<string>)
    | GoToAction(ok: bool, dest: Option<Dest>, namedDest: Option<string>)
    | GoToRAction(ok: bool)
    | OtherAction(ok: bool)

  /** The document catalog: named destinations and the page numbers (from 1) of page objects. */
  datatype Catalog = Catalog(findDest: string -> Option<Dest>, findPage: (int, int) -> int)

  /** A coordinate transform of the page (user space to device space). */
  type Transform = (real, real) -> (real, real)

  /** What the writer is asked to emit for a link. */
  datatype LinkRecord = PageLink(rect: Rect, page: int, x: int, y: int) | UrlLink(rect: Rect, url: string)

  /**
   * The active area of a link: its first corner through the transform,
   * its extent through the transform of distances, all rounded.
   */
  function ActiveRect(x1: real, y1: real, x2: real, y2: real, transform: Transform, transformDelta: Transform): Rect
  {
    var (x, y) := transform(x1, y1);
    var (dx, dy) := transformDelta(x2 - x1, y2 - y1);
    Rect(Numeric.Round(x), Numeric.Round(y), Numeric.Round(dx), Numeric.Round(dy))
  }

  /** The destination of a go-to action: a named destination, looked up in the catalog, wins over the direct one. */
  function Destination(dest: Option<Dest>, namedDest: Option<string>, catalog: Catalog): Option<Dest>
  {
    if namedDest.Some? then catalog.findDest(namedDest.value) else dest
  }

  /** The page of a destination, counted from 1. */
  function DestinationPage(d: Dest, catalog: Catalog): int
  {
    match d.target
    case PageRef(num, gen) => catalog.findPage(num, gen)
    case PageNumber(page) => page
  }

  /** A destination the device can emit: a fit-kind, or an XYZ destination that sets both left and top. */
  predicate Usable(d: Dest)
  {
    d.ok && (d.kind == DestXYZ ==> d.changeLeft && d.changeTop)
  }

  /**
   * The classification of `drawLink`. A web address becomes a URL link
   * exactly when the action is valid and has an address; a go-to action
   * becomes a page link exactly when its destination is usable, with the
   * page counted from 0 and, for XYZ, the transformed (left, top), and
   * (0, 0) for every fit-kind; external and other actions give nothing.
   */
  function ResolveLink(rect: Rect, action: Option<Action>, catalog: Catalog, transform: Transform): (r: Option<LinkRecord>)
    ensures r.Some? ==> r.value.rect == rect
    ensures (r.Some? && r.value.UrlLink?) <==> action.Some? && action.value.UriAction? && action.value.ok && action.value.uri.Some?
    ensures r.Some? && r.value.UrlLink? ==> r.value.url == action.value.uri.value
    ensures (r.Some? && r.value.PageLink?) <==>
      && action.Some? && action.value.GoToAction? && action.value.ok
      && var d := Destination(action.value.dest, action.value.namedDest, catalog);
         d.Some? && Usable(d.value)
    ensures r.Some? && r.value.PageLink? ==>
      var d := Destination(action.value.dest, action.value.namedDest, catalog).value;
      && r.value.page == DestinationPage(d, catalog) - 1
      && (d.kind == DestXYZ ==>
            var (x, y) := transform(d.left, d.top);
            r.value.x == Numeric.Round(x) && r.value.y == Numeric.Round(y))
      && (d.kind != DestXYZ ==> r.value.x == 0 && r.value.y == 0)
  {
    if action.None? || !action.value.ok then None
    else
      match action.value
      case UriAction(_, uri) =>
        if uri.Some? then Some(UrlLink(rect, uri.value)) else None
      case GoToAction(_, dest, namedDest) =>
        var linkDest := if namedDest.Some? then catalog.findDest(namedDest.value) else dest;
        if linkDest.None? || !linkDest.value.ok then None
        else
          var d := linkDest.value;
          var page := match d.target
            case PageRef(num, gen) => catalog.findPage(num, gen)
            case PageNumber(n) => n;
          if d.kind == DestXYZ then
            if d.changeLeft && d.changeTop then
              var (x, y) := transform(d.left, d.top);
              Some(PageLink(rect, page - 1, Numeric.Round(x), Numeric.Round(y)))
            else None
          else Some(PageLink(rect, page - 1, 0, 0))
      case GoToRAction(_) => None
      case OtherAction(_) => None
  }

  /** Links to other documents and actions of other kinds are dropped. */
  lemma ExternalLinksDropped(rect: Rect, action: Action, catalog: Catalog, transform: Transform)
    requires action.GoToRAction? || action.OtherAction?
    ensures ResolveLink(rect, Some(action), catalog, transform).None?
  {
  }

  /** A named destination overrides the direct one: the direct destination is then irrelevant. */
  lemma NamedDestinationWins(rect: Rect, ok: bool, dest: Option<Dest>, dest': Option<Dest>, name: string,
                             catalog: Catalog, transform: Transform)
    ensures ResolveLink(rect, Some(GoToAction(ok, dest, Some(name))), catalog, transform)
         == ResolveLink(rect, Some(GoToAction(ok, dest', Some(name))), catalog, transform)
  {
  }

  /** Every fit-kind destination leads to the top left corner (0, 0) of its page, counted from 0. */
  lemma FitLinksToPageTop(rect: Rect, dest: Dest, catalog: Catalog, transform: Transform)
    requires dest.ok && dest.kind != DestXYZ
    ensures ResolveLink(rect, Some(GoToAction(true, Some(dest), None)), catalog, transform)
         == Some(PageLink(rect, DestinationPage(dest, catalog) - 1, 0, 0))
  {
  }

  /** The text the writer emits for a resolved link; nothing for an unresolved one. */
  function LinkText(r: Option<LinkRecord>): string
  {
    match r
    case None => ""
    case Some(PageLink(rect, page, x, y)) => XmlWriter.PageLink(rect, page, x, y)
    case Some(UrlLink(rect, url)) => XmlWriter.UrlLink(rect, url)
  }

  /** The numbers of a resolved link fit the writer's `int`s. */
  predicate Printable(r: Option<LinkRecord>)
  {
    match r
    case None => true
    case Some(PageLink(rect, page, x, y)) =>
      XmlWriter.PrintableRect(rect) && XmlWriter.Printable(page) && XmlWriter.Printable(x) && XmlWriter.Printable(y)
    case Some(UrlLink(rect, _)) => XmlWriter.PrintableRect(rect)
  }

  /** A resolved link whose address, if any, holds no markup. */
  predicate MarkupFree(r: Option<LinkRecord>)
  {
    r.Some? && r.value.UrlLink? ==> Markup.MarkupFree(XmlWriter.CString(r.value.url))
  }
}
