/** Posted amounts: 64-bit integers in minor units, added only with a check. */
module Money {
  import opened Outcomes

  datatype CurrencyCode = Rub | Usd | Eur | Cny | Xau

  /** The declaration order, which is the order currencies sort in. */
  function CurrencyRank(c: CurrencyCode): (n: int)
    ensures 0 <= n < 5
  {
    match c
    case Rub => 0
    case Usd => 1
    case Eur => 2
    case Cny => 3
    case Xau => 4
  }

  const I64_MIN := -0x8000_0000_0000_0000
  const I64_MAX := 0x7FFF_FFFF_FFFF_FFFF

  predicate Fits(x: int) {
    I64_MIN <= x <= I64_MAX
  }

  type PostedMinor = x: int | Fits(x) witness 0

  function CheckedAdd(a: PostedMinor, b: PostedMinor): Option<PostedMinor> {
    if Fits(a + b) then Some(a + b) else None
  }

  function CheckedSub(a: PostedMinor, b: PostedMinor): Option<PostedMinor> {
    if Fits(a - b) then Some(a - b) else None
  }

  function CheckedNeg(a: PostedMinor): Option<PostedMinor> {
    var negated := 0 - a as int;
    if Fits(negated) then Some(negated) else None
  }

  datatype MoneyError = CurrencyMismatch(left: CurrencyCode, right: CurrencyCode) | Overflow

  datatype Money = Money(amount: PostedMinor, currency: CurrencyCode) {

    function TryAdd(other: Money): Result<Money, MoneyError> {
      if currency != other.currency then Err(CurrencyMismatch(currency, other.currency))
      else
        match CheckedAdd(amount, other.amount)
        case Some(sum) => Ok(Money(sum, currency))
        case None => Err(Overflow)
    }

    function TrySub(other: Money): Result<Money, MoneyError> {
      if currency != other.currency then Err(CurrencyMismatch(currency, other.currency))
      else
        match CheckedSub(amount, other.amount)
        case Some(difference) => Ok(Money(difference, currency))
        case None => Err(Overflow)
    }

    function CheckedNegate(): Result<Money, MoneyError> {
      match CheckedNeg(amount)
      case Some(negated) => Ok(Money(negated, currency))
      case None => Err(Overflow)
    }
  }

  /** Money in two currencies does not add, so the account and the currency are
      one unit wherever amounts are folded. */
  datatype Key = Key(account: int, currency: CurrencyCode)

  /** Keys sort by account and then by currency. */
  predicate KeyLe(a: Key, b: Key) {
    a.account < b.account
    || (a.account == b.account && CurrencyRank(a.currency) <= CurrencyRank(b.currency))
  }

  function Zero(currency: CurrencyCode): Money {
    Money(0, currency)
  }
}
