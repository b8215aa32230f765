/** The lwIP bridge's compile-time limits. */
module BridgeConfig {

  const NS_MAX_CONN := 64            // connection slots
  const NS_TX_MAX := 128             // transmit ring cells
  const NS_TX_CONN_CAP := 16         // one connection's share of them
  const NS_TX_CONN_CTL := 255        // owner of a frame that belongs to no connection
}
