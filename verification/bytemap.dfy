/** The two substitution tables of keys.go and their being each other's inverse. */
module ByteMap {
  import opened Bytes

  /** Entry i of a table row of sixteen. */
  function Nth(i: int, v0: Byte, v1: Byte, v2: Byte, v3: Byte, v4: Byte, v5: Byte, v6: Byte, v7: Byte,
               v8: Byte, v9: Byte, v10: Byte, v11: Byte, v12: Byte, v13: Byte, v14: Byte, v15: Byte): Byte
  {
    if i < 8 then
      if i < 4 then
        (if i < 2 then (if i < 1 then v0 else v1) else (if i < 3 then v2 else v3))
      else
        (if i < 6 then (if i < 5 then v4 else v5) else (if i < 7 then v6 else v7))
    else
      if i < 12 then
        (if i < 10 then (if i < 9 then v8 else v9) else (if i < 11 then v10 else v11))
      else
        (if i < 14 then (if i < 13 then v12 else v13) else (if i < 15 then v14 else v15))
  }

  /** `g_SendByteMap`, sixteen entries a row. */
  function SendByteMap(b: Byte): Byte {
    if b < 0x10 then
      Nth(b - 0x00, 0x9e, 0x27, 0xca, 0xf1, 0x0a, 0xe8, 0x88, 0xaf, 0x37, 0x55, 0xed, 0x46, 0xd0, 0x49, 0x23, 0xdf)
    else if b < 0x20 then
      Nth(b - 0x10, 0xc1, 0x07, 0x86, 0xc8, 0xb0, 0xab, 0xa7, 0x41, 0x50, 0x52, 0x0c, 0x56, 0xce, 0x40, 0x60, 0x69)
    else if b < 0x30 then
      Nth(b - 0x20, 0x14, 0x21, 0xaa, 0x5b, 0x24, 0x68, 0x30, 0x58, 0x8e, 0x9d, 0x2c, 0x11, 0x98, 0xb6, 0x32, 0xbc)
    else if b < 0x40 then
      Nth(b - 0x30, 0xe0, 0x9b, 0xc5, 0x64, 0x12, 0x02, 0xfe, 0x3c, 0xcb, 0x6f, 0xa2, 0x73, 0x77, 0xa4, 0x15, 0x22)
    else if b < 0x50 then
      Nth(b - 0x40, 0x34, 0x25, 0x08, 0xf0, 0x04, 0x91, 0x75, 0x43, 0xfc, 0x03, 0x3f, 0xf9, 0x1b, 0xa9, 0xee, 0x44)
    else if b < 0x60 then
      Nth(b - 0x50, 0x3a, 0xa1, 0x94, 0x5d, 0x70, 0x18, 0xc2, 0x51, 0x9c, 0x83, 0xad, 0xf6, 0xff, 0x4a, 0x63, 0x9a)
    else if b < 0x70 then
      Nth(b - 0x60, 0xda, 0x05, 0xd2, 0x93, 0xc6, 0x38, 0xd9, 0x59, 0x78, 0xc0, 0x35, 0xbe, 0x6e, 0x10, 0x74, 0x20)
    else if b < 0x80 then
      Nth(b - 0x70, 0x06, 0xd3, 0xa6, 0x1a, 0xe2, 0xbb, 0xfb, 0x79, 0xcc, 0x5c, 0xe5, 0xfa, 0xa0, 0x8c, 0x7a, 0xb7)
    else if b < 0x90 then
      Nth(b - 0x80, 0x53, 0x72, 0x6d, 0x61, 0x39, 0x87, 0x80, 0x84, 0xba, 0x5f, 0x7d, 0x4f, 0xde, 0xa5, 0xdb, 0xb4)
    else if b < 0xa0 then
      Nth(b - 0x90, 0x67, 0x33, 0x8f, 0x2e, 0x71, 0xbd, 0xdc, 0x01, 0xdd, 0xc9, 0xa3, 0xea, 0x17, 0xf7, 0x6c, 0x31)
    else if b < 0xb0 then
      Nth(b - 0xa0, 0xcd, 0xc4, 0x45, 0xb2, 0xd7, 0x19, 0x1d, 0xe7, 0x0b, 0x2f, 0xa8, 0x4e, 0x1f, 0x62, 0xd1, 0x1e)
    else if b < 0xc0 then
      Nth(b - 0xb0, 0xbf, 0x82, 0xb5, 0x85, 0x96, 0xb9, 0x6a, 0x3e, 0x29, 0x9f, 0x57, 0xac, 0xf4, 0x2a, 0xcf, 0xd6)
    else if b < 0xd0 then
      Nth(b - 0xc0, 0x0d, 0x8d, 0xc3, 0x76, 0xf5, 0xef, 0xf3, 0x00, 0xe3, 0x92, 0xc7, 0x26, 0x81, 0x28, 0xae, 0xe4)
    else if b < 0xe0 then
      Nth(b - 0xd0, 0x2b, 0x66, 0x89, 0x8b, 0xd4, 0x7b, 0x4b, 0x16, 0x4c, 0xd8, 0xe1, 0xf2, 0x65, 0x99, 0xe6, 0x7c)
    else if b < 0xf0 then
      Nth(b - 0xe0, 0x95, 0x4d, 0x13, 0x97, 0xb8, 0x48, 0x7e, 0x5e, 0x42, 0x09, 0xd5, 0xf8, 0x6b, 0xb3, 0xb1, 0x3d)
    else
      Nth(b - 0xf0, 0x36, 0x2d, 0x0f, 0x3b, 0xec, 0x47, 0x1c, 0xeb, 0x0e, 0x7f, 0x5a, 0x90, 0xfd, 0x8a, 0xe9, 0x54)
  }

  /** `g_RecvByteMap`. */
  function RecvByteMap(b: Byte): Byte {
    if b < 0x10 then
      Nth(b - 0x00, 0xc7, 0x97, 0x35, 0x49, 0x44, 0x61, 0x70, 0x11, 0x42, 0xe9, 0x04, 0xa8, 0x1a, 0xc0, 0xf8, 0xf2)
    else if b < 0x20 then
      Nth(b - 0x10, 0x6d, 0x2b, 0x34, 0xe2, 0x20, 0x3e, 0xd7, 0x9c, 0x55, 0xa5, 0x73, 0x4c, 0xf6, 0xa6, 0xaf, 0xac)
    else if b < 0x30 then
      Nth(b - 0x20, 0x6f, 0x21, 0x3f, 0x0e, 0x24, 0x41, 0xcb, 0x01, 0xcd, 0xb8, 0xbd, 0xd0, 0x2a, 0xf1, 0x93, 0xa9)
    else if b < 0x40 then
      Nth(b - 0x30, 0x26, 0x9f, 0x2e, 0x91, 0x40, 0x6a, 0xf0, 0x08, 0x65, 0x84, 0x50, 0xf3, 0x37, 0xef, 0xb7, 0x4a)
    else if b < 0x50 then
      Nth(b - 0x40, 0x1d, 0x17, 0xe8, 0x47, 0x4f, 0xa2, 0x0b, 0xf5, 0xe5, 0x0d, 0x5d, 0xd6, 0xd8, 0xe1, 0xab, 0x8b)
    else if b < 0x60 then
      Nth(b - 0x50, 0x18, 0x57, 0x19, 0x80, 0xff, 0x09, 0x1b, 0xba, 0x27, 0x67, 0xfa, 0x23, 0x79, 0x53, 0xe7, 0x89)
    else if b < 0x70 then
      Nth(b - 0x60, 0x1e, 0x83, 0xad, 0x5e, 0x33, 0xdc, 0xd1, 0x90, 0x25, 0x1f, 0xb6, 0xec, 0x9e, 0x82, 0x6c, 0x39)
    else if b < 0x80 then
      Nth(b - 0x70, 0x54, 0x94, 0x81, 0x3b, 0x6e, 0x46, 0xc3, 0x3c, 0x68, 0x77, 0x7e, 0xd5, 0xdf, 0x8a, 0xe6, 0xf9)
    else if b < 0x90 then
      Nth(b - 0x80, 0x86, 0xcc, 0xb1, 0x59, 0x87, 0xb3, 0x12, 0x85, 0x06, 0xd2, 0xfd, 0xd3, 0x7d, 0xc1, 0x28, 0x92)
    else if b < 0xa0 then
      Nth(b - 0x90, 0xfb, 0x45, 0xc9, 0x63, 0x52, 0xe0, 0xb4, 0xe3, 0x2c, 0xdd, 0x5f, 0x31, 0x58, 0x29, 0x00, 0xb9)
    else if b < 0xb0 then
      Nth(b - 0xa0, 0x7c, 0x51, 0x3a, 0x9a, 0x3d, 0x8d, 0x72, 0x16, 0xaa, 0x4d, 0x22, 0x15, 0xbb, 0x5a, 0xce, 0x07)
    else if b < 0xc0 then
      Nth(b - 0xb0, 0x14, 0xee, 0xa3, 0xed, 0x8f, 0xb2, 0x2d, 0x7f, 0xe4, 0xb5, 0x88, 0x75, 0x2f, 0x95, 0x6b, 0xb0)
    else if b < 0xd0 then
      Nth(b - 0xc0, 0x69, 0x10, 0x56, 0xc2, 0xa1, 0x32, 0x64, 0xca, 0x13, 0x99, 0x02, 0x38, 0x78, 0xa0, 0x1c, 0xbe)
    else if b < 0xe0 then
      Nth(b - 0xd0, 0x0c, 0xae, 0x62, 0x71, 0xd4, 0xea, 0xbf, 0xa4, 0xd9, 0x66, 0x60, 0x8e, 0x96, 0x98, 0x8c, 0x0f)
    else if b < 0xf0 then
      Nth(b - 0xe0, 0x30, 0xda, 0x74, 0xc8, 0xcf, 0x7a, 0xde, 0xa7, 0x05, 0xfe, 0x9b, 0xf7, 0xf4, 0x0a, 0x4e, 0xc5)
    else
      Nth(b - 0xf0, 0x43, 0x03, 0xdb, 0xc6, 0xbc, 0xc4, 0x5b, 0x9d, 0xeb, 0x4b, 0x7b, 0x76, 0x48, 0xfc, 0x36, 0x5c)
  }

  lemma SendQuarter0(b: Byte)
    requires 0x00 <= b < 0x40
    ensures RecvByteMap(SendByteMap(b)) == b
  {
  }

  lemma SendQuarter1(b: Byte)
    requires 0x40 <= b < 0x80
    ensures RecvByteMap(SendByteMap(b)) == b
  {
  }

  lemma SendQuarter2(b: Byte)
    requires 0x80 <= b < 0xc0
    ensures RecvByteMap(SendByteMap(b)) == b
  {
  }

  lemma SendQuarter3(b: Byte)
    requires 0xc0 <= b < 0x100
    ensures RecvByteMap(SendByteMap(b)) == b
  {
  }

  lemma RecvUndoesSend(b: Byte)
    ensures RecvByteMap(SendByteMap(b)) == b
  {
    if b < 0x40 {
      SendQuarter0(b);
    } else if b < 0x80 {
      SendQuarter1(b);
    } else if b < 0xc0 {
      SendQuarter2(b);
    } else {
      SendQuarter3(b);
    }
  }

  lemma RecvQuarter0(b: Byte)
    requires 0x00 <= b < 0x40
    ensures SendByteMap(RecvByteMap(b)) == b
  {
  }

  lemma RecvQuarter1(b: Byte)
    requires 0x40 <= b < 0x80
    ensures SendByteMap(RecvByteMap(b)) == b
  {
  }

  lemma RecvQuarter2(b: Byte)
    requires 0x80 <= b < 0xc0
    ensures SendByteMap(RecvByteMap(b)) == b
  {
  }

  lemma RecvQuarter3(b: Byte)
    requires 0xc0 <= b < 0x100
    ensures SendByteMap(RecvByteMap(b)) == b
  {
  }

  lemma SendUndoesRecv(b: Byte)
    ensures SendByteMap(RecvByteMap(b)) == b
  {
    if b < 0x40 {
      RecvQuarter0(b);
    } else if b < 0x80 {
      RecvQuarter1(b);
    } else if b < 0xc0 {
      RecvQuarter2(b);
    } else {
      RecvQuarter3(b);
    }
  }
}
