/** The candlestick record of `pp/kdata.py`. */
module KData {

  /** One candle: the date as an integer, the four prices, and the traded volume. */
  datatype KBlock = KBlock(date: int, open: real, high: real, low: real, close: real, volume: real)

  /** The close prices of a list of candles, in the same order. */
  function Closes(klist: seq<KBlock>): (cs: seq<real>)
    ensures |cs| == |klist|
    ensures forall i :: 0 <= i < |klist| ==> cs[i] == klist[i].close
  {
    seq(|klist|, i requires 0 <= i < |klist| => klist[i].close)
  }
}
