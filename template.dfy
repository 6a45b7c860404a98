/** The template engine: a product record is poured into an HTML template by
    eight global replacements done one after the other, and the overview page
    is the overview template with every product card in its place. */
module Template {
  import opened Strings

  /** A catalog entry. Each field holds the text that JavaScript's string
      conversion gives for the value read from the catalog document. */
  datatype Product = Product(
    id: string,
    name: string,
    image: string,
    price: string,
    category: string,
    description: string,
    rating: string,
    reviews: string)

  const ProductNameToken: string := "{%PRODUCTNAME%}"
  const ImageToken: string := "{%IMAGE%}"
  const PriceToken: string := "{%PRICE%}"
  const OriginToken: string := "{%ORIGIN%}"
  const DescriptionToken: string := "{%DESCRIPTION%}"
  const IdToken: string := "{%ID%}"
  const RatingToken: string := "{%RATING%}"
  const ReviewsToken: string := "{%REVIEWS%}"
  const CardsToken: string := "{%PRODUCT_CARDS%}"

  /** The placeholders of a product template, in the order they are replaced. */
  const Tokens: seq<string> :=
    [ProductNameToken, ImageToken, PriceToken, OriginToken,
     DescriptionToken, IdToken, RatingToken, ReviewsToken]

  /** One pass of the renderer: replace every `token` by `value`. */
  datatype Subst = Subst(token: string, value: string)

  predicate NonEmptyTokens(subs: seq<Subst>) {
    forall k :: 0 <= k < |subs| ==> subs[k].token != []
  }

  /** The eight passes for `p`; the image placeholder gets the `/images/` path. */
  function Substitutions(p: Product): (subs: seq<Subst>)
    ensures |subs| == |Tokens| && NonEmptyTokens(subs)
    ensures forall k :: 0 <= k < |subs| ==> subs[k].token == Tokens[k]
  {
    [Subst(ProductNameToken, p.name),
     Subst(ImageToken, "/images/" + p.image),
     Subst(PriceToken, p.price),
     Subst(OriginToken, p.category),
     Subst(DescriptionToken, p.description),
     Subst(IdToken, p.id),
     Subst(RatingToken, p.rating),
     Subst(ReviewsToken, p.reviews)]
  }

  /** Runs the passes in order, each on the output of the one before. */
  function ApplyAll(s: string, subs: seq<Subst>): (r: string)
    requires NonEmptyTokens(subs)
    decreases |subs|
  {
    if subs == [] then s
    else ApplyAll(ReplaceAll(s, subs[0].token, subs[0].value), subs[1..])
  }

  function Render(template: string, p: Product): (page: string) {
    ApplyAll(template, Substitutions(p))
  }

  /** `replaceTemplate`: rebinds `output` through the eight replacements. */
  method ReplaceTemplate(template: string, product: Product) returns (output: string)
    ensures output == Render(template, product)
  {
    ghost var subs := Substitutions(product);
    output := template;
    output := ReplaceAll(output, ProductNameToken, product.name);
    assert Render(template, product) == ApplyAll(output, subs[1..]);
    output := ReplaceAll(output, ImageToken, "/images/" + product.image);
    assert Render(template, product) == ApplyAll(output, subs[2..]);
    output := ReplaceAll(output, PriceToken, product.price);
    assert Render(template, product) == ApplyAll(output, subs[3..]);
    output := ReplaceAll(output, OriginToken, product.category);
    assert Render(template, product) == ApplyAll(output, subs[4..]);
    output := ReplaceAll(output, DescriptionToken, product.description);
    assert Render(template, product) == ApplyAll(output, subs[5..]);
    output := ReplaceAll(output, IdToken, product.id);
    assert Render(template, product) == ApplyAll(output, subs[6..]);
    output := ReplaceAll(output, RatingToken, product.rating);
    assert Render(template, product) == ApplyAll(output, subs[7..]);
    output := ReplaceAll(output, ReviewsToken, product.reviews);
    assert Render(template, product) == ApplyAll(output, subs[8..]);
  }

  /** Text in which none of the passes' tokens occurs goes through untouched. */
  lemma {:induction false} ApplyAllAbsent(s: string, subs: seq<Subst>)
    requires NonEmptyTokens(subs)
    requires forall k :: 0 <= k < |subs| ==> !Contains(s, subs[k].token)
    ensures ApplyAll(s, subs) == s
    decreases |subs|
  {
    if subs != [] {
      ReplaceAllAbsent(s, subs[0].token, subs[0].value);
      ApplyAllAbsent(s, subs[1..]);
    }
  }

  /** Pass order: a placeholder standing alone is left alone by the earlier
      passes, becomes its value in its own pass (which does not rescan the
      value), and the value then goes through the later passes only. */
  lemma {:induction false} ApplyAllToken(subs: seq<Subst>, k: nat)
    requires NonEmptyTokens(subs) && k < |subs|
    requires '$' !in subs[k].value
    requires forall j :: 0 <= j < k ==> !Contains(subs[k].token, subs[j].token)
    ensures ApplyAll(subs[k].token, subs) == ApplyAll(subs[k].value, subs[k + 1..])
    decreases k
  {
    if k == 0 {
      ReplaceAllWhole(subs[0].token, subs[0].value);
    } else {
      ReplaceAllAbsent(subs[k].token, subs[0].token, subs[0].value);
      ApplyAllToken(subs[1..], k - 1);
      assert subs[1..][k - 1] == subs[k] && subs[1..][k..] == subs[k + 1..];
    }
  }

  lemma TokensDelimited()
    ensures forall k :: 0 <= k < |Tokens| ==> Delimited(Tokens[k])
    ensures Delimited(CardsToken)
  {
  }

  lemma TokensDistinct()
    ensures forall j, k :: 0 <= j < k < |Tokens| ==> Tokens[j] != Tokens[k]
    ensures forall k :: 0 <= k < |Tokens| ==> Tokens[k] != CardsToken
  {
  }

  /** No placeholder occurs inside another one. */
  lemma TokensDoNotNest(j: nat, k: nat)
    requires j < |Tokens| && k < |Tokens| && j != k
    ensures !Contains(Tokens[k], Tokens[j])
  {
    TokensDelimited();
    TokensDistinct();
    DelimitedNoNesting(Tokens[k], Tokens[j]);
  }

  /** A template holding none of the eight placeholders is returned unchanged. */
  lemma RenderPlain(template: string, p: Product)
    requires forall k :: 0 <= k < |Tokens| ==> !Contains(template, Tokens[k])
    ensures Render(template, p) == template
  {
    ApplyAllAbsent(template, Substitutions(p));
  }

  /** The `k`-th placeholder alone renders as the `k`-th field value run through
      the passes after it: a later placeholder inside an earlier field's value
      is substituted too, but no pass rescans the text it inserted. */
  lemma RenderToken(p: Product, k: nat)
    requires k < |Tokens|
    requires '$' !in Substitutions(p)[k].value
    ensures Render(Tokens[k], p) == ApplyAll(Substitutions(p)[k].value, Substitutions(p)[k + 1..])
  {
    var subs := Substitutions(p);
    forall j | 0 <= j < k
      ensures !Contains(subs[k].token, subs[j].token)
    {
      TokensDoNotNest(j, k);
    }
    ApplyAllToken(subs, k);
  }

  /** A field value without `$` and without placeholders is copied verbatim;
      the image field comes out as `/images/` followed by the file name. */
  lemma RenderFieldVerbatim(p: Product, k: nat)
    requires k < |Tokens|
    requires '$' !in Substitutions(p)[k].value
    requires forall j :: 0 <= j < |Tokens| ==> !Contains(Substitutions(p)[k].value, Tokens[j])
    ensures Render(Tokens[k], p) == Substitutions(p)[k].value
    ensures k == 1 ==> Render(ImageToken, p) == "/images/" + p.image
  {
    var subs := Substitutions(p);
    RenderToken(p, k);
    ApplyAllAbsent(subs[k].value, subs[k + 1..]);
  }

  /** `dataObj.map(product => replaceTemplate(template, product)).join('')` */
  function Cards(template: string, catalog: seq<Product>): (cards: string)
    decreases |catalog|
  {
    if catalog == [] then [] else Render(template, catalog[0]) + Cards(template, catalog[1..])
  }

  lemma {:induction false} CardsAppend(template: string, a: seq<Product>, b: seq<Product>)
    ensures Cards(template, a + b) == Cards(template, a) + Cards(template, b)
    decreases |a|
  {
    if a == [] {
      assert a + b == b;
    } else {
      CardsAppend(template, a[1..], b);
      assert (a + b)[1..] == a[1..] + b;
    }
  }

  /** One card per product, in catalog order: product `i`'s card comes right
      after the cards of the products before it. */
  lemma CardsInOrder(template: string, catalog: seq<Product>, i: nat)
    requires i < |catalog|
    ensures Cards(template, catalog)
         == Cards(template, catalog[..i]) + Render(template, catalog[i]) + Cards(template, catalog[i + 1..])
  {
    assert catalog == catalog[..i] + catalog[i..];
    CardsAppend(template, catalog[..i], catalog[i..]);
  }

  function Repeat(s: string, n: nat): (r: string) {
    if n == 0 then [] else s + Repeat(s, n - 1)
  }

  /** With a placeholder-free card template the cards are that template once
      per product. */
  lemma {:induction false} CardsOfPlainTemplate(template: string, catalog: seq<Product>)
    requires forall k :: 0 <= k < |Tokens| ==> !Contains(template, Tokens[k])
    ensures Cards(template, catalog) == Repeat(template, |catalog|)
    decreases |catalog|
  {
    if catalog != [] {
      RenderPlain(template, catalog[0]);
      CardsOfPlainTemplate(template, catalog[1..]);
    }
  }

  /** The overview page: every `{%PRODUCT_CARDS%}` replaced by all the cards. */
  function OverviewPage(overviewTemplate: string, cardTemplate: string, catalog: seq<Product>): (page: string) {
    ReplaceAll(overviewTemplate, CardsToken, Cards(cardTemplate, catalog))
  }

  /** The overview page is the overview template's text around the
      placeholders, in order, with the cards wherever a placeholder was. */
  lemma OverviewLayout(overviewTemplate: string, cardTemplate: string, catalog: seq<Product>)
    requires '$' !in Cards(cardTemplate, catalog)
    ensures OverviewPage(overviewTemplate, cardTemplate, catalog)
         == Join(Split(overviewTemplate, CardsToken), Cards(cardTemplate, catalog))
    ensures Join(Split(overviewTemplate, CardsToken), CardsToken) == overviewTemplate
  {
    ReplaceAllIsJoin(overviewTemplate, CardsToken, Cards(cardTemplate, catalog));
    JoinSplit(overviewTemplate, CardsToken);
  }
}
