# django-urltags: `add_qs_param` and `add_fragment` in Dafny

This project models the two pieces of the `url_tags` template-tag library
that carry their own logic:

- the `{% add_qs_param url name value [name value …] %}` tag: the compile
  step that checks the argument count, and the render step that resolves the
  arguments, pairs them, merges them over the URL's parsed query (later pairs
  overwrite earlier ones and the original value) and replaces only the query
  component of the URL;
- the `{{ url|add_fragment:frag }}` filter, which replaces only the fragment
  component.

A URL is the six-component record that `urlparse` produces (`Urls.UrlParts`:
scheme, netloc, path, params, query, fragment). The query component stays a
string, because `add_fragment` passes it through unparsed. A parsed query is a
finite map from keys to value lists (`Urls.QueryDict`). The library routines
`urlparse`, `urlunparse`, `parse_qs` and `urlencode(…, doseq=True)` are not
modelled as string algorithms. They are abstract functions, bundled in `Urls.UrlLibrary`
and passed to the operations that call them. Rendering returns either `Blank`
(the empty string) or the components that `urlunparse` reassembles.

Template-variable resolution (`smart_resolve`) is a lookup in a context map
that falls back to the argument's literal text (`Templates.SmartResolve`).
Context values are a string or Python's `None`. A resolved name or value is
written into the query as text, and `None` becomes `"None"`, which is what
`urlencode` prints for it.

Modules: `Results` (Option/Result), `Urls` (components and the component edits),
`Templates` (context lookup), `Query` (pairing and the overwrite merge),
`UrlTags` (the tag and the filter).

## Model

| member | source | states |
|---|---|---|
| UrlTags.CompileAddQsParam | urltags/templatetags/url_tags.py:58-63 | compilation fails exactly when there are fewer than 4 bits (missing-arguments error naming the tag) or an odd number of bits (uneven-arguments error naming the tag); otherwise the node holds `bits[1]` as url and `bits[2:]` as the arguments, so tag name, url and arguments reassemble the bits |
| UrlTags.CompileAccepts | urltags/templatetags/url_tags.py:58-63 | a tag `[tag, url] + params` compiles iff `params` is non-empty and of even length, and then the node is exactly `(url, params)` |
| UrlTags.CompiledNodeIsRenderable | urltags/templatetags/url_tags.py:61-63 | every compiled node has at least one name/value pair and an even argument count, so rendering's pairing never indexes past the end |
| UrlTags.Render | urltags/templatetags/url_tags.py:29-45 | the output is blank iff the url resolves to `None`; otherwise scheme, netloc, path, params and fragment equal those of the parsed url and the query is the encoding of the parsed query overwritten by the resolved pairs |
| UrlTags.RenderMergesQuery | urltags/templatetags/url_tags.py:33-45 | the dictionary that rendering encodes keeps every parsed key, gives unnamed keys their parsed values, and gives each supplied name the value after its last occurrence among the resolved arguments |
| UrlTags.LiteralUrlRenders | urltags/templatetags/url_tags.py:18-32 | a url argument that names no context variable is used as its literal text: rendering is never blank, and every component but the query is that of the parsed literal |
| UrlTags.AddFragmentFilter | urltags/templatetags/url_tags.py:66-78 | the filter's result has the given fragment and the other five components of the parsed value |
| UrlTags.AddFragmentFilterLastWins | urltags/templatetags/url_tags.py:77-78 | when splitting the filter's output text gives back its components, filtering with `f1` and then `f2` equals filtering with `f2` alone |
| Urls.WithQuery | urltags/templatetags/url_tags.py:45 | reassembly with a new query changes only the query component |
| Urls.AddFragment | urltags/templatetags/url_tags.py:78 | reassembly with a new fragment changes only the fragment component |
| Urls.AddFragmentLastWins | urltags/templatetags/url_tags.py:77-78 | adding fragment `f1` and then `f2` equals adding `f2` alone |
| Urls.AddFragmentFixpoint | urltags/templatetags/url_tags.py:77-78 | adding a fragment leaves the URL unchanged iff the URL already has that fragment |
| Urls.QueryAndFragmentCommute | urltags/templatetags/url_tags.py:45 | replacing the query and replacing the fragment commute |
| Templates.SmartResolve | urltags/templatetags/url_tags.py:14-21 | a bound name resolves to its bound value, an unbound name to its own text; so `None` comes only from a variable bound to `None` |
| Templates.Text | urltags/templatetags/url_tags.py:44 | a resolved string is written as itself; `None` is written as the text `None`, the same text as the string `"None"` |
| Templates.ResolveAll | urltags/templatetags/url_tags.py:35-37 | every argument is resolved in place and order, as its text |
| Query.Pairs | urltags/templatetags/url_tags.py:35-38 | an even-length argument list gives exactly half as many pairs, pair `i` being `(args[2i], args[2i+1])` in order |
| Query.FlattenPairs | urltags/templatetags/url_tags.py:35-38 | flattening the pairs gives the argument list back, so pairing drops and reorders nothing |
| Query.PairsFlatten | urltags/templatetags/url_tags.py:35-38 | pairing the flattened list of any pairs gives those pairs back |
| Query.NamesOfPairs | urltags/templatetags/url_tags.py:35-38 | the names the pairs write are exactly the arguments at even positions |
| Query.Override | urltags/templatetags/url_tags.py:40-42 | after the merge the keys are the parsed keys plus the supplied names (no key removed), and a key no pair names keeps its parsed value |
| Query.OverrideLastWins | urltags/templatetags/url_tags.py:41-42 | a supplied name holds the value of the last pair that writes it |
| Query.OverrideLastWrite | urltags/templatetags/url_tags.py:41-42 | a pair that no later pair overrides decides its name's value |
| Query.OverrideIgnoresOriginal | urltags/templatetags/url_tags.py:40-42 | a supplied name's value does not depend on the parsed query: the original value is overwritten |
| Query.OverrideAppend | urltags/templatetags/url_tags.py:41-42 | merging `p` then `q` equals merging `p + q` in one pass |
| Query.OverrideIdempotent | urltags/templatetags/url_tags.py:40-42 | merging the same pairs a second time changes nothing |
| Query.OverrideDisjointCommute | urltags/templatetags/url_tags.py:41-42 | pair lists with disjoint names can be merged in either order |
| Query.LastNameWins | urltags/templatetags/url_tags.py:35-42 | the name at an even argument position that no later name repeats ends with the following argument as its value |
| Query.MergeArguments | urltags/templatetags/url_tags.py:35-42 | on the raw argument list: keys are parsed keys plus even-position arguments, unnamed keys are unchanged, each name takes the value after its last occurrence |

## Left out

- String parsing and encoding by `urlparse.urlparse`, `urlparse.urlunparse`, `urlparse.parse_qs` and `urllib.urlencode`: these are library code. They are abstract, total function parameters (`Urls.UrlLibrary`), and both rendering and the `add_fragment` filter return the components handed to `urlunparse` rather than its text. The real `urlparse` can raise: it rejects a netloc with an unmatched `[` or `]` (for example `http://[::1/p`) as an invalid IPv6 URL, so both the tag and the `add_fragment` filter raise on such a value, while the model's `urlparse` cannot fail and both return assembled components. Other consequences of the real routines are not stated either: `parse_qs` drops blank values, so a key like `a=` vanishes from the output, and the dictionary's iteration order fixes the order of the encoded parameters.
- The merged dictionary stores the bare resolved value, not a list. For ASCII text, `urlencode(doseq=True)` writes a string value as one `name=value`, exactly like a one-element list, so the model stores `[value]`.
- Non-ASCII text in the query is not modelled. Template arguments are unicode text, and Python 2's `urlencode` encodes a bare unicode value with ASCII replacement, so a non-ASCII supplied value comes out with `?` in place of those characters. The same routine converts every key with `str`, so a non-ASCII supplied name makes rendering raise, and it raises on non-ASCII elements of the parsed value lists as well. The model renders all of these normally. Context values other than strings and `None` are not modelled: a list bound in the context would be expanded by `doseq`, and a number would be printed with `str`.
- A name that resolves to `None` is written as the key `"None"`. In the source the dictionary key is `None`, which is distinct from a parsed key `'None'`, although both encode to the same text. That collision is not modelled.
- `smart_resolve` and `Variable` resolution: these belong to the framework. They are modelled only as a context lookup with literal fallback. Quoted-string and number literals, translation literals `_("…")` and dotted attribute lookups are not modelled. `Variable` does not parse filters, so an argument such as `a|upper` is looked up whole and falls back to its literal text, which is what the model does.
- UrlTags.CompileAddQsParam: the error conditions are the tag's own two arity checks only. Building the node wraps every argument in the framework's `Variable`, which raises a syntax error of its own for an argument that is not a literal and starts with `_` or contains `._`. So `add_qs_param url _page 2` fails to compile in the framework, but the model accepts it.
- UrlTags.CompileAddQsParam: requires at least one bit: the framework always passes the tag name as `bits[0]`.
- UrlTags.AddFragmentFilter: value and fragment are strings in the model. The filter itself does not check for `None`. A `None` value makes `urlparse` raise, and a `None` fragment is dropped by `urlunparse` just as an empty one is. Neither case is modelled.
- UrlTags.Render: requires an even argument count: nodes come only from compilation, which guarantees it (`UrlTags.CompiledNodeIsRenderable`).
- `absurl` / `AbsoluteURLNode` (url_tags.py:81-102): this depends on the framework's URL reversal, a database lookup of the current site and `urljoin`, so there is no logic of its own left to model.
- `link` (url_tags.py:105-117): this is an attribute check, HTML escaping and `mark_safe` formatting over framework helpers.
- Tag and filter registration through `Library`, and the rest of the template engine.
