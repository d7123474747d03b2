/** The transaction fields that the pool and the nonce rules read. */
module Transactions {
  datatype Transaction = Transaction(
    id: string,
    sender: string,
    receiver: string,
    amount: real,
    fee: real,
    timestamp: int,
    expiryTime: int,
    contractId: string,
    nonce: int)
}
