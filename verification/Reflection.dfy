/** The octet mirror table of cpConstants.cpp. */
module Reflection {

  /** Bit reversal by exchanging halves, then pairs, then single bits. */
  function Reverse8(v: bv8): bv8 {
    var a := ((v & 0x0f) << 4) | (v >> 4);
    var b := ((a & 0x33) << 2) | ((a >> 2) & 0x33);
    ((b & 0x55) << 1) | ((b >> 1) & 0x55)
  }

  function ReflectRow0(v: bv8): (r: bv8)
    requires v >> 5 == 0
    ensures r == Reverse8(v)
  {
    match v
    case 0x00 => 0x00 case 0x01 => 0x80 case 0x02 => 0x40 case 0x03 => 0xc0 case 0x04 => 0x20 case 0x05 => 0xa0 case 0x06 => 0x60 case 0x07 => 0xe0
    case 0x08 => 0x10 case 0x09 => 0x90 case 0x0a => 0x50 case 0x0b => 0xd0 case 0x0c => 0x30 case 0x0d => 0xb0 case 0x0e => 0x70 case 0x0f => 0xf0
    case 0x10 => 0x08 case 0x11 => 0x88 case 0x12 => 0x48 case 0x13 => 0xc8 case 0x14 => 0x28 case 0x15 => 0xa8 case 0x16 => 0x68 case 0x17 => 0xe8
    case 0x18 => 0x18 case 0x19 => 0x98 case 0x1a => 0x58 case 0x1b => 0xd8 case 0x1c => 0x38 case 0x1d => 0xb8 case 0x1e => 0x78 case _ => 0xf8
  }

  function ReflectRow1(v: bv8): (r: bv8)
    requires v >> 5 == 1
    ensures r == Reverse8(v)
  {
    match v
    case 0x20 => 0x04 case 0x21 => 0x84 case 0x22 => 0x44 case 0x23 => 0xc4 case 0x24 => 0x24 case 0x25 => 0xa4 case 0x26 => 0x64 case 0x27 => 0xe4
    case 0x28 => 0x14 case 0x29 => 0x94 case 0x2a => 0x54 case 0x2b => 0xd4 case 0x2c => 0x34 case 0x2d => 0xb4 case 0x2e => 0x74 case 0x2f => 0xf4
    case 0x30 => 0x0c case 0x31 => 0x8c case 0x32 => 0x4c case 0x33 => 0xcc case 0x34 => 0x2c case 0x35 => 0xac case 0x36 => 0x6c case 0x37 => 0xec
    case 0x38 => 0x1c case 0x39 => 0x9c case 0x3a => 0x5c case 0x3b => 0xdc case 0x3c => 0x3c case 0x3d => 0xbc case 0x3e => 0x7c case _ => 0xfc
  }

  function ReflectRow2(v: bv8): (r: bv8)
    requires v >> 5 == 2
    ensures r == Reverse8(v)
  {
    match v
    case 0x40 => 0x02 case 0x41 => 0x82 case 0x42 => 0x42 case 0x43 => 0xc2 case 0x44 => 0x22 case 0x45 => 0xa2 case 0x46 => 0x62 case 0x47 => 0xe2
    case 0x48 => 0x12 case 0x49 => 0x92 case 0x4a => 0x52 case 0x4b => 0xd2 case 0x4c => 0x32 case 0x4d => 0xb2 case 0x4e => 0x72 case 0x4f => 0xf2
    case 0x50 => 0x0a case 0x51 => 0x8a case 0x52 => 0x4a case 0x53 => 0xca case 0x54 => 0x2a case 0x55 => 0xaa case 0x56 => 0x6a case 0x57 => 0xea
    case 0x58 => 0x1a case 0x59 => 0x9a case 0x5a => 0x5a case 0x5b => 0xda case 0x5c => 0x3a case 0x5d => 0xba case 0x5e => 0x7a case _ => 0xfa
  }

  function ReflectRow3(v: bv8): (r: bv8)
    requires v >> 5 == 3
    ensures r == Reverse8(v)
  {
    match v
    case 0x60 => 0x06 case 0x61 => 0x86 case 0x62 => 0x46 case 0x63 => 0xc6 case 0x64 => 0x26 case 0x65 => 0xa6 case 0x66 => 0x66 case 0x67 => 0xe6
    case 0x68 => 0x16 case 0x69 => 0x96 case 0x6a => 0x56 case 0x6b => 0xd6 case 0x6c => 0x36 case 0x6d => 0xb6 case 0x6e => 0x76 case 0x6f => 0xf6
    case 0x70 => 0x0e case 0x71 => 0x8e case 0x72 => 0x4e case 0x73 => 0xce case 0x74 => 0x2e case 0x75 => 0xae case 0x76 => 0x6e case 0x77 => 0xee
    case 0x78 => 0x1e case 0x79 => 0x9e case 0x7a => 0x5e case 0x7b => 0xde case 0x7c => 0x3e case 0x7d => 0xbe case 0x7e => 0x7e case _ => 0xfe
  }

  function ReflectRow4(v: bv8): (r: bv8)
    requires v >> 5 == 4
    ensures r == Reverse8(v)
  {
    match v
    case 0x80 => 0x01 case 0x81 => 0x81 case 0x82 => 0x41 case 0x83 => 0xc1 case 0x84 => 0x21 case 0x85 => 0xa1 case 0x86 => 0x61 case 0x87 => 0xe1
    case 0x88 => 0x11 case 0x89 => 0x91 case 0x8a => 0x51 case 0x8b => 0xd1 case 0x8c => 0x31 case 0x8d => 0xb1 case 0x8e => 0x71 case 0x8f => 0xf1
    case 0x90 => 0x09 case 0x91 => 0x89 case 0x92 => 0x49 case 0x93 => 0xc9 case 0x94 => 0x29 case 0x95 => 0xa9 case 0x96 => 0x69 case 0x97 => 0xe9
    case 0x98 => 0x19 case 0x99 => 0x99 case 0x9a => 0x59 case 0x9b => 0xd9 case 0x9c => 0x39 case 0x9d => 0xb9 case 0x9e => 0x79 case _ => 0xf9
  }

  function ReflectRow5(v: bv8): (r: bv8)
    requires v >> 5 == 5
    ensures r == Reverse8(v)
  {
    match v
    case 0xa0 => 0x05 case 0xa1 => 0x85 case 0xa2 => 0x45 case 0xa3 => 0xc5 case 0xa4 => 0x25 case 0xa5 => 0xa5 case 0xa6 => 0x65 case 0xa7 => 0xe5
    case 0xa8 => 0x15 case 0xa9 => 0x95 case 0xaa => 0x55 case 0xab => 0xd5 case 0xac => 0x35 case 0xad => 0xb5 case 0xae => 0x75 case 0xaf => 0xf5
    case 0xb0 => 0x0d case 0xb1 => 0x8d case 0xb2 => 0x4d case 0xb3 => 0xcd case 0xb4 => 0x2d case 0xb5 => 0xad case 0xb6 => 0x6d case 0xb7 => 0xed
    case 0xb8 => 0x1d case 0xb9 => 0x9d case 0xba => 0x5d case 0xbb => 0xdd case 0xbc => 0x3d case 0xbd => 0xbd case 0xbe => 0x7d case _ => 0xfd
  }

  function ReflectRow6(v: bv8): (r: bv8)
    requires v >> 5 == 6
    ensures r == Reverse8(v)
  {
    match v
    case 0xc0 => 0x03 case 0xc1 => 0x83 case 0xc2 => 0x43 case 0xc3 => 0xc3 case 0xc4 => 0x23 case 0xc5 => 0xa3 case 0xc6 => 0x63 case 0xc7 => 0xe3
    case 0xc8 => 0x13 case 0xc9 => 0x93 case 0xca => 0x53 case 0xcb => 0xd3 case 0xcc => 0x33 case 0xcd => 0xb3 case 0xce => 0x73 case 0xcf => 0xf3
    case 0xd0 => 0x0b case 0xd1 => 0x8b case 0xd2 => 0x4b case 0xd3 => 0xcb case 0xd4 => 0x2b case 0xd5 => 0xab case 0xd6 => 0x6b case 0xd7 => 0xeb
    case 0xd8 => 0x1b case 0xd9 => 0x9b case 0xda => 0x5b case 0xdb => 0xdb case 0xdc => 0x3b case 0xdd => 0xbb case 0xde => 0x7b case _ => 0xfb
  }

  function ReflectRow7(v: bv8): (r: bv8)
    requires v >> 5 == 7
    ensures r == Reverse8(v)
  {
    match v
    case 0xe0 => 0x07 case 0xe1 => 0x87 case 0xe2 => 0x47 case 0xe3 => 0xc7 case 0xe4 => 0x27 case 0xe5 => 0xa7 case 0xe6 => 0x67 case 0xe7 => 0xe7
    case 0xe8 => 0x17 case 0xe9 => 0x97 case 0xea => 0x57 case 0xeb => 0xd7 case 0xec => 0x37 case 0xed => 0xb7 case 0xee => 0x77 case 0xef => 0xf7
    case 0xf0 => 0x0f case 0xf1 => 0x8f case 0xf2 => 0x4f case 0xf3 => 0xcf case 0xf4 => 0x2f case 0xf5 => 0xaf case 0xf6 => 0x6f case 0xf7 => 0xef
    case 0xf8 => 0x1f case 0xf9 => 0x9f case 0xfa => 0x5f case 0xfb => 0xdf case 0xfc => 0x3f case 0xfd => 0xbf case 0xfe => 0x7f case _ => 0xff
  }

  /** The mirror table of cpConstants.cpp, in eight rows of thirty-two entries: every entry is
      the mirror image of its index. */
  function ReflectLut(v: bv8): (r: bv8)
    ensures r == Reverse8(v)
  {
    match v >> 5
    case 0 => ReflectRow0(v)
    case 1 => ReflectRow1(v)
    case 2 => ReflectRow2(v)
    case 3 => ReflectRow3(v)
    case 4 => ReflectRow4(v)
    case 5 => ReflectRow5(v)
    case 6 => ReflectRow6(v)
    case _ => ReflectRow7(v)
  }
}
