/** The relay's compile-time limits. */
module RelayConfig {

  const RP_BUF := 65536              // one read
  const RP_PEND_LIMIT := 0x10_0000   // backlog of one direction
  const RP_MAX_CONNS := 256          // concurrent handshakes
  const RP_MAX_ESTABLISHED := 512
  const RP_FD_RESERVE := 2 * RP_MAX_CONNS + 64
}
