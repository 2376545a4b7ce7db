/** The bar's configuration constants. Their values live in the driver's
    header, which is not part of this model; the values below are stand-ins.
    The general contracts hold for any positive values; the worked example
    `Bottles.FillExample` needs `NBOTTLES >= 3` (it orders bottles 1 to 3),
    and `OrderQueue.FullBlocksUntilTake` fills exactly `NCUSTOMERS` slots. */
module BarConfig {

  /** Number of bottles, hence of bottle locks; bottle ids run 1..NBOTTLES. */
  const NBOTTLES: nat := 10

  /** Number of customers, the capacity of the order ring buffer. */
  const NCUSTOMERS: nat := 10
}
