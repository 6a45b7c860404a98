/** The request handler: the path chooses one of seven branches, in a fixed
    priority order, and each branch produces a response (or throws). The
    host's file reads, URI decoding and string-to-number conversion are
    parameters. */
module Router {
  import opened Strings
  import opened Template
  import opened Mime
  import opened ProductId

  newtype byte = b: int | 0 <= b < 256

  datatype Route =
    | Overview
    | Product(id: Option<string>)
    | Api
    | Public(path: string)
    | Image(rest: string)
    | HtmlFile(path: string)
    | Unknown

  const ImagesPrefix: string := "/images/"
  const ImgPrefix: string := "/img/"

  /** The if/else chain of the handler: exact paths first, then prefixes.
      `/images/` and `/img/` are removed with `pathname.replace(prefix, '')`. */
  function Classify(pathname: string, id: Option<string>): (r: Route)
    ensures r == Overview <==> pathname == "/" || pathname == "/overview"
    ensures r.Product? <==> pathname == "/product"
    ensures r.Product? ==> r.id == id
    ensures r == Api <==> pathname == "/api"
    ensures r.Public? <==> "/public/" <= pathname
    ensures r.Public? ==> r.path == pathname
    ensures r.Image? <==> ImagesPrefix <= pathname || ImgPrefix <= pathname
    ensures r.Image? && ImagesPrefix <= pathname ==> pathname == ImagesPrefix + r.rest
    ensures r.Image? && ImgPrefix <= pathname ==> pathname == ImgPrefix + r.rest
    ensures r.HtmlFile? <==> "/html/" <= pathname
    ensures r.HtmlFile? ==> r.path == pathname
  {
    PrefixChars(pathname);
    if pathname == "/" || pathname == "/overview" then Overview
    else if pathname == "/product" then Route.Product(id)
    else if pathname == "/api" then Api
    else if "/public/" <= pathname then Public(pathname)
    else if ImagesPrefix <= pathname || ImgPrefix <= pathname then
      var prefix := if ImagesPrefix <= pathname then ImagesPrefix else ImgPrefix;
      assert pathname == prefix + pathname[|prefix|..];
      Image(RemoveFirst(pathname, prefix))
    else if "/html/" <= pathname then HtmlFile(pathname)
    else Unknown
  }

  /** The route prefixes differ in their first characters, so a path has at
      most one of them, and none of the exact paths has any. */
  lemma PrefixChars(p: string)
    ensures "/public/" <= p ==> |p| >= 8 && p[1] == 'p' && p[2] == 'u'
    ensures ImagesPrefix <= p ==> |p| >= 8 && p[1] == 'i' && p[3] == 'a'
    ensures ImgPrefix <= p ==> |p| >= 5 && p[1] == 'i' && p[3] == 'g'
    ensures "/html/" <= p ==> |p| >= 6 && p[1] == 'h'
  {
  }

  datatype Body = TextBody(text: string) | FileBody(data: seq<byte>)

  datatype Response = Response(status: nat, contentType: string, body: Body)

  /** A request either gets a response or ends in an uncaught exception. */
  datatype Outcome = Served(response: Response) | Thrown

  /** The startup state: the catalog (and its JSON text) and the three
      templates, read once and never changed. */
  datatype Site = Site(
    catalog: seq<Template.Product>,
    catalogJson: string,
    overviewTemplate: string,
    productTemplate: string,
    notFoundTemplate: string)

  /** What the handler asks of the runtime: `fs.readFile` (`None` when the
      read fails), `decodeURIComponent` (`None` when it throws) and the
      conversion of a non-digit string to a number (`None` for `NaN`). */
  datatype Host = Host(
    readFile: string -> Option<seq<byte>>,
    decodeUri: string -> Option<string>,
    toNumber: string -> Option<real>)

  const HtmlUtf8: string := "text/html; charset=utf-8"

  function NotFoundPage(site: Site): (r: Response) {
    Response(404, HtmlUtf8, TextBody(site.notFoundTemplate))
  }

  /** A file of the public or images folder: 200 with the MIME type of its
      path, or 404 with a plain-text message when it cannot be read. */
  function StaticFile(path: string, missing: string, host: Host): (r: Response)
    ensures r.status == 200 <==> host.readFile(path).Some?
    ensures r.status == 200 ==> r == Response(200, MimeType(path), FileBody(host.readFile(path).value))
    ensures r.status != 200 ==> r == Response(404, "text/plain", TextBody(missing))
  {
    match host.readFile(path)
    case None => Response(404, "text/plain", TextBody(missing))
    case Some(data) => Response(200, MimeType(path), FileBody(data))
  }

  /** `fs.readFile` validates its path before reading and throws at once,
      instead of calling back with an error, when the path holds a NUL
      character. */
  predicate ReadRejects(path: string) {
    '\0' in path
  }

  /** The path the handler passes to `fs.readFile`, for the three branches
      that read a file (the image branch only once its rest is decoded). */
  function ReadPath(pathname: string, id: Option<string>, host: Host): (p: Option<string>)
    ensures p.Some? <==>
      "/public/" <= pathname || "/html/" <= pathname
      || (Classify(pathname, id).Image? && host.decodeUri(Classify(pathname, id).rest).Some?)
  {
    match Classify(pathname, id)
    case Public(path) => Some(path)
    case Image(rest) =>
      (match host.decodeUri(rest)
       case None => None
       case Some(name) => Some(ImagesPrefix + name))
    case HtmlFile(path) => Some(path)
    case _ => None
  }

  /** The handler for one request with path `pathname` and query value `id`. */
  function Handle(site: Site, pathname: string, id: Option<string>, host: Host): (r: Outcome)
    ensures r.Served? ==> r.response.status == 200 || r.response.status == 404
    ensures r == Thrown <==>
      (pathname == "/product" && PassesCheck(|site.catalog|, id, host.toNumber) && !Canonical(id.value))
      || (Classify(pathname, id).Image? && host.decodeUri(Classify(pathname, id).rest).None?)
      || (ReadPath(pathname, id, host).Some? && ReadRejects(ReadPath(pathname, id, host).value))
    ensures pathname == "/product" && r.Served? && r.response.status == 200 ==>
      exists i :: 0 <= i < |site.catalog| && id == Some(DecimalString(i))
        && r.response.body == TextBody(Render(site.productTemplate, site.catalog[i]))
  {
    match Classify(pathname, id)
    case Overview =>
      Served(Response(200, HtmlUtf8,
        TextBody(OverviewPage(site.overviewTemplate, site.productTemplate, site.catalog))))
    case Product(id) =>
      (match CheckId(|site.catalog|, id, host.toNumber)
       case InRange(i) =>
         Served(Response(200, HtmlUtf8, TextBody(Render(site.productTemplate, site.catalog[i]))))
       case Rejected => Served(NotFoundPage(site))
       case Dangling => Thrown)
    case Api => Served(Response(200, "application/json", TextBody(site.catalogJson)))
    case Public(path) =>
      if ReadRejects(path) then Thrown
      else Served(StaticFile(path, "404 - File not found", host))
    case Image(rest) =>
      (match host.decodeUri(rest)
       case None => Thrown
       case Some(name) =>
         if ReadRejects(ImagesPrefix + name) then Thrown
         else Served(StaticFile(ImagesPrefix + name, "404 - Image not found", host)))
    case HtmlFile(path) =>
      if ReadRejects(path) then Thrown
      else
        (match host.readFile(path)
         case None => Served(Response(404, "text/html", TextBody(site.notFoundTemplate)))
         case Some(data) => Served(Response(200, HtmlUtf8, FileBody(data))))
    case Unknown => Served(NotFoundPage(site))
  }

  /** `/` and `/overview` serve the overview page built from every product. */
  lemma OverviewServed(site: Site, pathname: string, id: Option<string>, host: Host)
    requires pathname == "/" || pathname == "/overview"
    ensures Handle(site, pathname, id, host)
         == Served(Response(200, HtmlUtf8,
              TextBody(OverviewPage(site.overviewTemplate, site.productTemplate, site.catalog))))
  {
  }

  /** `/product?id=i` for every index `i` of the catalog serves product `i`. */
  lemma ProductServed(site: Site, i: nat, host: Host)
    requires i < |site.catalog|
    ensures Handle(site, "/product", Some(DecimalString(i)), host)
         == Served(Response(200, HtmlUtf8, TextBody(Render(site.productTemplate, site.catalog[i]))))
  {
  }

  /** A missing or empty id, or one that is out of range, gives the 404 page. */
  lemma ProductNotFound(site: Site, id: Option<string>, host: Host)
    requires id == None || id == Some([])
          || LooseNumber(id.value, host.toNumber).None?
          || LooseNumber(id.value, host.toNumber).value < 0.0
          || LooseNumber(id.value, host.toNumber).value >= |site.catalog| as real
    ensures Handle(site, "/product", id, host) == Served(NotFoundPage(site))
  {
  }

  /** `/api` serves the catalog's JSON text. */
  lemma ApiServed(site: Site, id: Option<string>, host: Host)
    ensures Handle(site, "/api", id, host)
         == Served(Response(200, "application/json", TextBody(site.catalogJson)))
  {
  }

  /** Static files: a readable file is sent with the MIME type of its path;
      an unreadable one gives the branch's 404. */
  lemma PublicServed(site: Site, pathname: string, id: Option<string>, host: Host)
    requires "/public/" <= pathname
    ensures ReadRejects(pathname) ==> Handle(site, pathname, id, host) == Thrown
    ensures !ReadRejects(pathname) && host.readFile(pathname).Some? ==>
      Handle(site, pathname, id, host)
        == Served(Response(200, MimeType(pathname), FileBody(host.readFile(pathname).value)))
    ensures !ReadRejects(pathname) && host.readFile(pathname).None? ==>
      Handle(site, pathname, id, host)
        == Served(Response(404, "text/plain", TextBody("404 - File not found")))
  {
  }

  /** An image path loses its prefix once, is decoded, and is looked up
      under `/images/`; a decoded name holding a NUL character makes the
      read throw. */
  lemma ImageServed(site: Site, prefix: string, rest: string, id: Option<string>, host: Host)
    requires prefix == ImagesPrefix || prefix == ImgPrefix
    requires host.decodeUri(rest).Some?
    ensures ReadRejects(ImagesPrefix + host.decodeUri(rest).value) ==>
      Handle(site, prefix + rest, id, host) == Thrown
    ensures !ReadRejects(ImagesPrefix + host.decodeUri(rest).value) ==>
      Handle(site, prefix + rest, id, host)
        == Served(StaticFile(ImagesPrefix + host.decodeUri(rest).value, "404 - Image not found", host))
  {
  }

  /** A file of the html folder is sent as HTML; an unreadable one gives the
      not-found template, with a content type that has no charset. */
  lemma HtmlServed(site: Site, pathname: string, id: Option<string>, host: Host)
    requires "/html/" <= pathname
    ensures ReadRejects(pathname) ==> Handle(site, pathname, id, host) == Thrown
    ensures !ReadRejects(pathname) && host.readFile(pathname).Some? ==>
      Handle(site, pathname, id, host)
        == Served(Response(200, HtmlUtf8, FileBody(host.readFile(pathname).value)))
    ensures !ReadRejects(pathname) && host.readFile(pathname).None? ==>
      Handle(site, pathname, id, host)
        == Served(Response(404, "text/html", TextBody(site.notFoundTemplate)))
  {
  }

  /** Any path outside the seven branches gives the 404 page. */
  lemma UnknownNotFound(site: Site, pathname: string, id: Option<string>, host: Host)
    requires pathname != "/" && pathname != "/overview" && pathname != "/product" && pathname != "/api"
    requires !("/public/" <= pathname) && !(ImagesPrefix <= pathname) && !(ImgPrefix <= pathname)
    requires !("/html/" <= pathname)
    ensures Handle(site, pathname, id, host) == Served(NotFoundPage(site))
  {
  }
}
