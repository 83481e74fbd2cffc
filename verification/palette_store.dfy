/** The background palette context: a provider that holds the current palette and
    offers `setPalette` and `resetPalette`, and the context value a consumer sees
    when no provider is mounted above it.

    The default palette comes from a module that is not part of this model, so it
    is a parameter, `dflt`, of every operation that falls back to it. */
module PaletteStore {
  import opened Color

  type Palette = seq<string>

  /** What a consumer of the context sees: the state of the nearest provider, or
      the context's built-in default value when there is none. */
  datatype Context = Outside | Provided(palette: Palette)

  /** An operation a consumer can invoke. */
  datatype Op = SetPalette(colors: Palette) | ResetPalette

  /** A freshly mounted provider holds the default palette. */
  function Mount(dflt: Palette): (ctx: Context)
    ensures ctx.Provided? && Current(ctx, dflt) == dflt
  {
    Provided(dflt)
  }

  /** The palette a consumer reads from the context. */
  function Current(ctx: Context, dflt: Palette): Palette
  {
    match ctx
    case Outside => dflt
    case Provided(p) => p
  }

  /** `setPalette`: a non-empty list is stored as given, an empty one falls back to
      the default; outside a provider the operation does nothing. */
  function Set(ctx: Context, colors: Palette, dflt: Palette): (r: Context)
    ensures ctx.Outside? ==> r == Outside
    ensures ctx.Provided? && |colors| > 0 ==> r == Provided(colors)
    ensures ctx.Provided? && |colors| == 0 ==> r == Provided(dflt)
  {
    match ctx
    case Outside => Outside
    case Provided(_) => Provided(if |colors| > 0 then colors else dflt)
  }

  /** `resetPalette`: the provider goes back to the default; outside a provider the
      operation does nothing. */
  function Reset(ctx: Context, dflt: Palette): (r: Context)
    ensures ctx.Outside? ==> r == Outside
    ensures ctx.Provided? ==> r == Provided(dflt)
  {
    match ctx
    case Outside => Outside
    case Provided(_) => Provided(dflt)
  }

  function Apply(ctx: Context, op: Op, dflt: Palette): Context
  {
    match op
    case SetPalette(colors) => Set(ctx, colors, dflt)
    case ResetPalette => Reset(ctx, dflt)
  }

  /** The operations applied in order. */
  function Run(ctx: Context, ops: seq<Op>, dflt: Palette): Context
    decreases |ops|
  {
    if ops == [] then ctx else Run(Apply(ctx, ops[0], dflt), ops[1..], dflt)
  }

  /** Resetting twice is resetting once. */
  lemma ResetIdempotent(ctx: Context, dflt: Palette)
    ensures Reset(Reset(ctx, dflt), dflt) == Reset(ctx, dflt)
  {
  }

  /** Setting the empty palette and resetting have the same effect. */
  lemma SetEmptyIsReset(ctx: Context, dflt: Palette)
    ensures Set(ctx, [], dflt) == Reset(ctx, dflt)
  {
  }

  /** The last operation alone decides the palette: a non-empty set is read back
      exactly, and anything else leaves the default. */
  lemma {:induction false} LastOperationWins(ops: seq<Op>, op: Op, dflt: Palette)
    ensures Current(Run(Mount(dflt), ops + [op], dflt), dflt) ==
      if op.SetPalette? && |op.colors| > 0 then op.colors else dflt
  {
    RunIsProvided(Mount(dflt), ops, dflt);
    RunAppend(Mount(dflt), ops, [op], dflt);
  }

  /** A provider stays a provider; outside one nothing changes. */
  lemma {:induction false} RunIsProvided(ctx: Context, ops: seq<Op>, dflt: Palette)
    ensures ctx.Provided? <==> Run(ctx, ops, dflt).Provided?
    ensures ctx.Outside? ==> Run(ctx, ops, dflt) == Outside
    decreases |ops|
  {
    if ops != [] {
      RunIsProvided(Apply(ctx, ops[0], dflt), ops[1..], dflt);
    }
  }

  lemma {:induction false} RunAppend(ctx: Context, ops: seq<Op>, more: seq<Op>, dflt: Palette)
    ensures Run(ctx, ops + more, dflt) == Run(Run(ctx, ops, dflt), more, dflt)
    decreases |ops|
  {
    if ops != [] {
      assert (ops + more)[0] == ops[0] && (ops + more)[1..] == ops[1..] + more;
      RunAppend(Apply(ctx, ops[0], dflt), ops[1..], more, dflt);
    } else {
      assert ops + more == more;
    }
  }

  /** Outside a provider the context shows the default palette whatever is invoked. */
  lemma OutsideShowsDefault(ops: seq<Op>, dflt: Palette)
    ensures Current(Run(Outside, ops, dflt), dflt) == dflt
  {
    RunIsProvided(Outside, ops, dflt);
  }

  /** The palette is never empty, from mount on, provided the default is not. */
  lemma {:induction false} RunKeepsNonEmpty(ctx: Context, ops: seq<Op>, dflt: Palette)
    requires |dflt| > 0
    requires |Current(ctx, dflt)| > 0
    ensures |Current(Run(ctx, ops, dflt), dflt)| > 0
    decreases |ops|
  {
    if ops != [] {
      RunKeepsNonEmpty(Apply(ctx, ops[0], dflt), ops[1..], dflt);
    }
  }

  /** Every palette entry is `"#"` and six hex digits. */
  predicate AllHex(p: Palette)
  {
    forall i :: 0 <= i < |p| ==> IsHexColor(p[i])
  }

  /** If the default and every palette ever set are hex colours, so is the palette. */
  lemma {:induction false} RunKeepsHex(ctx: Context, ops: seq<Op>, dflt: Palette)
    requires AllHex(dflt) && AllHex(Current(ctx, dflt))
    requires forall i :: 0 <= i < |ops| && ops[i].SetPalette? ==> AllHex(ops[i].colors)
    ensures AllHex(Current(Run(ctx, ops, dflt), dflt))
    decreases |ops|
  {
    if ops != [] {
      RunKeepsHex(Apply(ctx, ops[0], dflt), ops[1..], dflt);
    }
  }
}
