/** The slice of template-variable resolution the tags rely on. */
module Templates {
  import opened Results

  /** A template context: variable names bound to a string or to `None`. */
  type Context = map<string, Option<string>>

  /** Resolve a tag argument against the context; an argument that names no
      variable falls back to its own literal text. */
  function SmartResolve(ctx: Context, name: string): (r: Option<string>)
    ensures name in ctx ==> r == ctx[name]
    ensures name !in ctx ==> r == Some(name)
    ensures r.None? ==> name in ctx && ctx[name].None?
  {
    if name in ctx then ctx[name] else Some(name)
  }

  /** How a resolved argument is written into a query string: a string as
      itself, `None` as the text `None`. */
  function Text(v: Option<string>): (r: string)
    ensures v.Some? ==> r == v.value
    ensures r == "None" <==> v == None || v == Some("None")
  {
    match v
    case Some(s) => s
    case None => "None"
  }

  /** Every argument resolved and written as text, in order. */
  function ResolveAll(ctx: Context, names: seq<string>): (r: seq<string>)
    ensures |r| == |names|
    ensures forall i :: 0 <= i < |names| ==> r[i] == Text(SmartResolve(ctx, names[i]))
  {
    if |names| == 0 then []
    else [Text(SmartResolve(ctx, names[0]))] + ResolveAll(ctx, names[1..])
  }
}
