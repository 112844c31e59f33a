/** Pooled transactions, as far as the pool's containers look at them. */
module Transactions {
  datatype Tx = Tx(hash: nat, nonce: nat, gasPrice: int, cost: int)
}
