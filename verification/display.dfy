/**
 The human-readable rendering of an expiration, one wording per variant.
 */
module ExpirationDisplay {
  import opened Expirations
  import Decimal

  const HEIGHT_PREFIX: string := "expiration height: "
  const TIME_PREFIX: string := "expiration time: "
  const NEVER_TEXT: string := "expiration: never"

  /** The text of `e`: its variant's wording followed by the payload in decimal. */
  function Display(e: Expiration): (s: string)
    ensures e.AtHeight? <==> |s| > |HEIGHT_PREFIX| && s[..|HEIGHT_PREFIX|] == HEIGHT_PREFIX
    ensures e.AtTime? <==> |s| > |TIME_PREFIX| && s[..|TIME_PREFIX|] == TIME_PREFIX
    ensures e.Never? <==> s == NEVER_TEXT
    ensures e.AtHeight? ==> s == HEIGHT_PREFIX + Decimal.Render(e.height)
    ensures e.AtTime? ==> s == TIME_PREFIX + Decimal.Render(e.time)
  {
    match e
    case AtHeight(h) =>
      var s := HEIGHT_PREFIX + Decimal.Render(h);
      assert s[11] == 'h' != TIME_PREFIX[11];
      s
    case AtTime(t) =>
      var s := TIME_PREFIX + Decimal.Render(t);
      assert s[11] == 't' != HEIGHT_PREFIX[11];
      s
    case Never => NEVER_TEXT
  }

  /** No two expirations share a rendering, so the text identifies the value. */
  lemma DisplayInjective(a: Expiration, b: Expiration)
    requires Display(a) == Display(b)
    ensures a == b
  {
    match a
    case AtHeight(x) =>
      assert Display(b)[..|HEIGHT_PREFIX|] == HEIGHT_PREFIX;
      var y := b.height;
      assert Decimal.Render(x) == Display(a)[|HEIGHT_PREFIX|..];
      assert Decimal.Render(y) == Display(b)[|HEIGHT_PREFIX|..];
      Decimal.RenderInjective(x, y);
    case AtTime(x) =>
      assert Display(b)[..|TIME_PREFIX|] == TIME_PREFIX;
      var y := b.time;
      assert Decimal.Render(x) == Display(a)[|TIME_PREFIX|..];
      assert Decimal.Render(y) == Display(b)[|TIME_PREFIX|..];
      Decimal.RenderInjective(x, y);
    case Never =>
  }
}
