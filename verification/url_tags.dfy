/** The `add_qs_param` tag (compilation and rendering) and the
    `add_fragment` filter. */
module UrlTags {
  import opened Results
  import opened Urls
  import opened Query
  import opened Templates

  /** The two syntax errors compilation raises; each names the tag as it
      was written. */
  datatype TemplateSyntaxError =
    | MissingArguments(tag: string)  // fewer than a url, one name and one value
    | UnevenArguments(tag: string)   // a name without a value

  /** The compiled tag: the url argument and the `name value …` arguments,
      all still unresolved variable names. */
  datatype AddParameter = AddParameter(url: string, params: seq<string>)

  /** What rendering produces: the empty string, or the components that are
      reassembled into the output URL. */
  datatype Rendered = Blank | Assembled(parts: UrlParts)

  /** Compiles the split contents of `{% add_qs_param url name value … %}`;
      `bits[0]` is the tag name. */
  function CompileAddQsParam(bits: seq<string>): (r: Result<AddParameter, TemplateSyntaxError>)
    requires |bits| >= 1
    ensures r.Ok? <==> |bits| >= 4 && |bits| % 2 == 0
    ensures |bits| < 4 ==> r == Err(MissingArguments(bits[0]))
    ensures |bits| >= 4 && |bits| % 2 != 0 ==> r == Err(UnevenArguments(bits[0]))
    ensures r.Ok? ==> [bits[0], r.value.url] + r.value.params == bits
  {
    if |bits| < 4 then Err(MissingArguments(bits[0]))
    else if |bits| % 2 != 0 then Err(UnevenArguments(bits[0]))
    else Ok(AddParameter(bits[1], bits[2..]))
  }

  /** Splitting a tag into name, url and arguments is undone by compilation:
      the tag compiles exactly when it has at least one name and one value
      and every name has a value, and then yields those very arguments. */
  lemma CompileAccepts(tag: string, url: string, params: seq<string>)
    ensures CompileAddQsParam([tag, url] + params).Ok?
        <==> |params| >= 2 && |params| % 2 == 0
    ensures CompileAddQsParam([tag, url] + params).Ok?
        ==> CompileAddQsParam([tag, url] + params).value == AddParameter(url, params)
  {
  }

  /** A compiled node always has a whole, non-empty list of pairs, so the
      pairing in `Render` never runs past the end of the arguments. */
  lemma CompiledNodeIsRenderable(bits: seq<string>)
    requires |bits| >= 1 && CompileAddQsParam(bits).Ok?
    ensures |CompileAddQsParam(bits).value.params| >= 2
    ensures |CompileAddQsParam(bits).value.params| % 2 == 0
  {
  }

  /** Renders the tag: resolves the url; `None` renders as the empty string.
      Otherwise the arguments are resolved and paired, merged over the
      parsed query, re-encoded, and only the query component of the URL is
      replaced. */
  function Render(node: AddParameter, ctx: Context, lib: UrlLibrary): (r: Rendered)
    requires |node.params| % 2 == 0
    ensures SmartResolve(ctx, node.url).None? <==> r.Blank?
    ensures r.Assembled? ==>
      var parsed := lib.urlparse(SmartResolve(ctx, node.url).value);
      && SameExceptQuery(r.parts, parsed)
      && r.parts.query == lib.urlencode(
           Override(lib.parseQs(parsed.query), Pairs(ResolveAll(ctx, node.params))))
  {
    match SmartResolve(ctx, node.url)
    case None => Blank
    case Some(theUrl) =>
      var urlParts := lib.urlparse(theUrl);
      var qsParams := Pairs(ResolveAll(ctx, node.params));
      var params := Override(lib.parseQs(urlParts.query), qsParams);
      Assembled(WithQuery(urlParts, lib.urlencode(params)))
  }

  /** The dictionary `Render` encodes, stated on the resolved arguments:
      every parsed key survives, unnamed keys keep their parsed values, and
      each supplied name holds the value of its last occurrence. */
  lemma {:induction false} RenderMergesQuery(node: AddParameter, ctx: Context, lib: UrlLibrary, theUrl: string)
    requires |node.params| % 2 == 0
    requires SmartResolve(ctx, node.url) == Some(theUrl)
    ensures
      var original := lib.parseQs(lib.urlparse(theUrl).query);
      var args := ResolveAll(ctx, node.params);
      var merged := Override(original, Pairs(args));
      && Render(node, ctx, lib).Assembled?
      && Render(node, ctx, lib).parts.query == lib.urlencode(merged)
      && merged.Keys == original.Keys + ArgNames(args)
      && (forall k :: k in original && k !in ArgNames(args) ==> merged[k] == original[k])
      && (forall i :: IsLastName(args, i) ==> merged[args[i]] == [args[i + 1]])
  {
    MergeArguments(lib.parseQs(lib.urlparse(theUrl).query), ResolveAll(ctx, node.params));
  }

  /** A url argument that names no variable is used as literal text, so it
      never renders blank. */
  lemma LiteralUrlRenders(node: AddParameter, ctx: Context, lib: UrlLibrary)
    requires |node.params| % 2 == 0 && node.url !in ctx
    ensures Render(node, ctx, lib).Assembled?
    ensures SameExceptQuery(Render(node, ctx, lib).parts, lib.urlparse(node.url))
  {
  }

  /** The `add_fragment` filter: the URL with its fragment replaced. */
  function AddFragmentFilter(lib: UrlLibrary, value: string, fragment: string): (r: UrlParts)
    ensures r.fragment == fragment
    ensures SameExceptFragment(r, lib.urlparse(value))
  {
    AddFragment(lib.urlparse(value), fragment)
  }

  /** Filtering the filter's own output: when splitting the first result's
      text gives back its components, a second fragment replaces the first,
      so applying `f1` and then `f2` is applying `f2` alone. */
  lemma AddFragmentFilterLastWins(lib: UrlLibrary, value: string, f1: string, f2: string)
    requires lib.urlparse(lib.urlunparse(AddFragmentFilter(lib, value, f1))) == AddFragmentFilter(lib, value, f1)
    ensures AddFragmentFilter(lib, lib.urlunparse(AddFragmentFilter(lib, value, f1)), f2)
         == AddFragmentFilter(lib, value, f2)
  {
  }
}
