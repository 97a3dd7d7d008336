/** JSON values as the redeem handlers read them. */
module Json {
  import opened JsNumber
  import opened Numerals

  /** Integer literals in a range where a float64 still converts to int64. */
  type JsonInt = n: int | -0x4000_0000_0000_0000 <= n <= 0x4000_0000_0000_0000

  datatype Json =
    | Null
    | Bool(b: bool)
    | Num(n: JsonInt)
    | Str(s: string)
    | Arr(items: seq<Json>)
    | Obj(fields: map<string, Json>)

  function Field(fields: map<string, Json>, name: string): Option<Json> {
    if name in fields then Some(fields[name]) else None
  }

  /** jsNumberString after json.Unmarshal into a float64. */
  function NumberString(n: int): string {
    Decimal(Round(n))
  }

  /** numberString: null leaves the zero value behind. */
  function NumberText(j: Json): Option<string> {
    match j
    case Num(n) => Some(NumberString(n))
    case Null => Some("0")
    case _ => None
  }

  /** nonceString: a number or a string; None is an absent field. */
  function NonceText(j: Option<Json>): Option<string> {
    match j
    case None => None
    case Some(Str(s)) => Some(s)
    case Some(v) => NumberText(v)
  }

  lemma DecimalInjective(m: int, n: int)
    ensures Decimal(m) == Decimal(n) <==> m == n
  {
    ParseIntOfDecimal(m);
    ParseIntOfDecimal(n);
  }

  /**
   * A nonce survives the way through float64 exactly when it is a multiple of the spacing of the doubles
   * around it, so always up to 2^53.
   */
  lemma NonceSurvivesIff(n: int)
    ensures var m: nat := if n < 0 then -n else n; NumberString(n) == Decimal(n) <==> m % Ulp(m) == 0
    ensures 0 <= n <= MAX_EXACT ==> NumberString(n) == Decimal(n)
  {
    DecimalInjective(Round(n), n);
    RoundNatExactIff(if n < 0 then -n else n);
    RoundExact(n);
  }

  /** The first nonce that does not. */
  lemma FirstLostNonce()
    ensures NumberString(MAX_EXACT + 1) == Decimal(MAX_EXACT) != Decimal(MAX_EXACT + 1)
  {
    var m := MAX_EXACT + 1;
    assert Ulp(m) == 2 * Ulp(m / 2) == 2;
    assert m / 2 == MAX_EXACT / 2 && m % 2 == 1;
    DecimalInjective(MAX_EXACT, m);
  }

  /** parseFormat1Solutions */
  function Format1Solutions(j: Json): Option<seq<string>> {
    match j
    case Null => Some([])
    case Arr(items) => Texts(items)
    case _ => None
  }

  function Texts(items: seq<Json>): (r: Option<seq<string>>)
    ensures r.Some? ==>
              && |r.value| == |items|
              && forall i :: 0 <= i < |items| ==> NumberText(items[i]) == Some(r.value[i])
    ensures r.None? ==> exists i :: 0 <= i < |items| && NumberText(items[i]).None?
  {
    if items == [] then Some([])
    else
      match (NumberText(items[0]), Texts(items[1..]))
      case (Some(t), Some(rest)) => Some([t] + rest)
      case _ => None
  }
}
