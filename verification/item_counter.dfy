/**
 A model of one product row (`ItemCounter`): the props it is rendered with,
 its two quantity buttons, and the guard that keeps a quantity from going
 negative before the request is handed to the owner of the list.
 */
module ItemCounter {

  /** Either a request the row forwards, or None for a request its guard drops. */
  datatype Option<+T> = None | Some(value: T)

  /** The data props of a row; the callbacks are modelled by the returned request. */
  datatype Props = Props(name: string, quantity: int)

  /** The two stepper buttons of a row. */
  datatype QuantityButton = Minus | Plus

  /** A call of the `onQuantityChange` callback with its two arguments. */
  datatype QuantityChange = QuantityChange(name: string, delta: int)

  /** The fixed delta each button sends: the buttons issue -1 and +1 and nothing else. */
  function Delta(b: QuantityButton): (d: int)
    ensures d == -1 || d == 1
    ensures d < 0 <==> b == Minus
  {
    match b
    case Minus => -1
    case Plus => 1
  }

  /**
   The row's guard: a request that would make the displayed quantity negative
   is dropped silently; any other is forwarded with the row's own name and the
   delta unchanged.
   */
  function OnHandleQuantity(props: Props, delta: int): (r: Option<QuantityChange>)
    ensures r.None? <==> props.quantity + delta < 0
    ensures r.Some? ==> r.value.name == props.name && r.value.delta == delta
    ensures r.Some? ==> props.quantity + r.value.delta >= 0
  {
    if props.quantity + delta < 0 then None
    else Some(QuantityChange(props.name, delta))
  }

  /** A click on one of the row's stepper buttons. */
  function Press(props: Props, b: QuantityButton): (r: Option<QuantityChange>)
    ensures r.Some? ==> r.value.name == props.name
    ensures r.Some? ==> r.value.delta == Delta(b)
    ensures r.Some? ==> r.value.delta == -1 || r.value.delta == 1
    ensures b == Plus && props.quantity >= 0 ==> r == Some(QuantityChange(props.name, 1))
    ensures b == Minus ==> (r.None? <==> props.quantity < 1)
  {
    OnHandleQuantity(props, Delta(b))
  }
}
