/** What the router modules share: topics are bitmasks, peers are opaque identities. */
module Network {
  type Topic = seq<bv8>
  type Peer = int
}
