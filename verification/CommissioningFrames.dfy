/** The frames of the commissioning handshake as their decoders deliver them. */
module CommissioningFrames {
  import opened Bytes
  import opened Protocol

  datatype JoinAccept = JoinAccept(
    deviceUid: Uid, requestNonce: uint32, assignedNodeId: byte, gatewayNodeId: byte, networkId: byte,
    installationKey: Key)

  /** The payload of both Join confirm and Join complete. */
  datatype JoinConfirm = JoinConfirm(deviceUid: Uid, requestNonce: uint32)

  /** What the accept's codec lets through, in both directions. */
  predicate DecodableAccept(accept: JoinAccept) {
    && accept.assignedNodeId != 0 && accept.assignedNodeId != accept.gatewayNodeId && accept.assignedNodeId != 255
    && accept.gatewayNodeId != 0 && accept.gatewayNodeId != 255
  }
}
