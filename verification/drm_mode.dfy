/**
 The mode-setting records the display driver hands back: connectors with
 their mode lists, encoders, and the resource set that enumerates both.
 Only the fields the program reads are kept.
 */
module DrmMode {
  import opened Common

  /** Connection state of a connector (DRM_MODE_CONNECTED and its siblings). */
  datatype Connection = Connected | Disconnected | UnknownConnection

  /** A display timing; the pixel dimensions are 16-bit fields in the driver's record. */
  datatype ModeInfo = ModeInfo(hdisplay: uint16, vdisplay: uint16, vrefresh: uint32)

  /** A display output port, as returned for one connector id of the resource set. */
  datatype Connector = Connector(
    connectorId: uint32,
    encoderId: uint32,
    connection: Connection,
    modes: seq<ModeInfo>)

  /** An encoder and the CRTC it is bound to. */
  datatype Encoder = Encoder(encoderId: uint32, crtcId: uint32)

  /**
   The device's resource set. Each list holds, in enumeration order, the
   record the driver returns for the corresponding id of the resource set.
   */
  datatype Resources = Resources(connectors: seq<Connector>, encoders: seq<Encoder>)

  /** Pixel area of a mode, the quantity the mode search maximises. */
  function Area(m: ModeInfo): nat
  {
    m.hdisplay * m.vdisplay
  }
}
