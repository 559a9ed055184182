// The 256 literal words of crc32_table, and the proof that each of them is
// eight shift steps of the reflected generator.

module Crc32Table {
  // One step of the reflected shift register
  function Step(c: bv32): bv32 {
    if c & 1 == 1 then (c >> 1) ^ 0xEDB8_8320 else c >> 1
  }

  function Step2(c: bv32): bv32 { Step(Step(c)) }

  function Step4(c: bv32): bv32 { Step2(Step2(c)) }

  function Step8(c: bv32): bv32 { Step4(Step4(c)) }

  function Entry(i: bv8): bv32 {
    if i < 128 then
      if i < 16 then Row0(i)
      else if i < 32 then Row1(i)
      else if i < 48 then Row2(i)
      else if i < 64 then Row3(i)
      else if i < 80 then Row4(i)
      else if i < 96 then Row5(i)
      else if i < 112 then Row6(i)
      else Row7(i)
    else
      if i < 144 then Row8(i)
      else if i < 160 then Row9(i)
      else if i < 176 then RowA(i)
      else if i < 192 then RowB(i)
      else if i < 208 then RowC(i)
      else if i < 224 then RowD(i)
      else if i < 240 then RowE(i)
      else RowF(i)
  }

  function Row0(i: bv8): bv32 {
    match i
    case 0 => 0x0000_0000 case 1 => 0x7707_3096 case 2 => 0xee0e_612c case 3 => 0x9909_51ba
    case 4 => 0x076d_c419 case 5 => 0x706a_f48f case 6 => 0xe963_a535 case 7 => 0x9e64_95a3
    case 8 => 0x0edb_8832 case 9 => 0x79dc_b8a4 case 10 => 0xe0d5_e91e case 11 => 0x97d2_d988
    case 12 => 0x09b6_4c2b case 13 => 0x7eb1_7cbd case 14 => 0xe7b8_2d07 case 15 => 0x90bf_1d91
    case _ => 0
  }

  function Row1(i: bv8): bv32 {
    match i
    case 16 => 0x1db7_1064 case 17 => 0x6ab0_20f2 case 18 => 0xf3b9_7148 case 19 => 0x84be_41de
    case 20 => 0x1ada_d47d case 21 => 0x6ddd_e4eb case 22 => 0xf4d4_b551 case 23 => 0x83d3_85c7
    case 24 => 0x136c_9856 case 25 => 0x646b_a8c0 case 26 => 0xfd62_f97a case 27 => 0x8a65_c9ec
    case 28 => 0x1401_5c4f case 29 => 0x6306_6cd9 case 30 => 0xfa0f_3d63 case 31 => 0x8d08_0df5
    case _ => 0
  }

  function Row2(i: bv8): bv32 {
    match i
    case 32 => 0x3b6e_20c8 case 33 => 0x4c69_105e case 34 => 0xd560_41e4 case 35 => 0xa267_7172
    case 36 => 0x3c03_e4d1 case 37 => 0x4b04_d447 case 38 => 0xd20d_85fd case 39 => 0xa50a_b56b
    case 40 => 0x35b5_a8fa case 41 => 0x42b2_986c case 42 => 0xdbbb_c9d6 case 43 => 0xacbc_f940
    case 44 => 0x32d8_6ce3 case 45 => 0x45df_5c75 case 46 => 0xdcd6_0dcf case 47 => 0xabd1_3d59
    case _ => 0
  }

  function Row3(i: bv8): bv32 {
    match i
    case 48 => 0x26d9_30ac case 49 => 0x51de_003a case 50 => 0xc8d7_5180 case 51 => 0xbfd0_6116
    case 52 => 0x21b4_f4b5 case 53 => 0x56b3_c423 case 54 => 0xcfba_9599 case 55 => 0xb8bd_a50f
    case 56 => 0x2802_b89e case 57 => 0x5f05_8808 case 58 => 0xc60c_d9b2 case 59 => 0xb10b_e924
    case 60 => 0x2f6f_7c87 case 61 => 0x5868_4c11 case 62 => 0xc161_1dab case 63 => 0xb666_2d3d
    case _ => 0
  }

  function Row4(i: bv8): bv32 {
    match i
    case 64 => 0x76dc_4190 case 65 => 0x01db_7106 case 66 => 0x98d2_20bc case 67 => 0xefd5_102a
    case 68 => 0x71b1_8589 case 69 => 0x06b6_b51f case 70 => 0x9fbf_e4a5 case 71 => 0xe8b8_d433
    case 72 => 0x7807_c9a2 case 73 => 0x0f00_f934 case 74 => 0x9609_a88e case 75 => 0xe10e_9818
    case 76 => 0x7f6a_0dbb case 77 => 0x086d_3d2d case 78 => 0x9164_6c97 case 79 => 0xe663_5c01
    case _ => 0
  }

  function Row5(i: bv8): bv32 {
    match i
    case 80 => 0x6b6b_51f4 case 81 => 0x1c6c_6162 case 82 => 0x8565_30d8 case 83 => 0xf262_004e
    case 84 => 0x6c06_95ed case 85 => 0x1b01_a57b case 86 => 0x8208_f4c1 case 87 => 0xf50f_c457
    case 88 => 0x65b0_d9c6 case 89 => 0x12b7_e950 case 90 => 0x8bbe_b8ea case 91 => 0xfcb9_887c
    case 92 => 0x62dd_1ddf case 93 => 0x15da_2d49 case 94 => 0x8cd3_7cf3 case 95 => 0xfbd4_4c65
    case _ => 0
  }

  function Row6(i: bv8): bv32 {
    match i
    case 96 => 0x4db2_6158 case 97 => 0x3ab5_51ce case 98 => 0xa3bc_0074 case 99 => 0xd4bb_30e2
    case 100 => 0x4adf_a541 case 101 => 0x3dd8_95d7 case 102 => 0xa4d1_c46d case 103 => 0xd3d6_f4fb
    case 104 => 0x4369_e96a case 105 => 0x346e_d9fc case 106 => 0xad67_8846 case 107 => 0xda60_b8d0
    case 108 => 0x4404_2d73 case 109 => 0x3303_1de5 case 110 => 0xaa0a_4c5f case 111 => 0xdd0d_7cc9
    case _ => 0
  }

  function Row7(i: bv8): bv32 {
    match i
    case 112 => 0x5005_713c case 113 => 0x2702_41aa case 114 => 0xbe0b_1010 case 115 => 0xc90c_2086
    case 116 => 0x5768_b525 case 117 => 0x206f_85b3 case 118 => 0xb966_d409 case 119 => 0xce61_e49f
    case 120 => 0x5ede_f90e case 121 => 0x29d9_c998 case 122 => 0xb0d0_9822 case 123 => 0xc7d7_a8b4
    case 124 => 0x59b3_3d17 case 125 => 0x2eb4_0d81 case 126 => 0xb7bd_5c3b case 127 => 0xc0ba_6cad
    case _ => 0
  }

  function Row8(i: bv8): bv32 {
    match i
    case 128 => 0xedb8_8320 case 129 => 0x9abf_b3b6 case 130 => 0x03b6_e20c case 131 => 0x74b1_d29a
    case 132 => 0xead5_4739 case 133 => 0x9dd2_77af case 134 => 0x04db_2615 case 135 => 0x73dc_1683
    case 136 => 0xe363_0b12 case 137 => 0x9464_3b84 case 138 => 0x0d6d_6a3e case 139 => 0x7a6a_5aa8
    case 140 => 0xe40e_cf0b case 141 => 0x9309_ff9d case 142 => 0x0a00_ae27 case 143 => 0x7d07_9eb1
    case _ => 0
  }

  function Row9(i: bv8): bv32 {
    match i
    case 144 => 0xf00f_9344 case 145 => 0x8708_a3d2 case 146 => 0x1e01_f268 case 147 => 0x6906_c2fe
    case 148 => 0xf762_575d case 149 => 0x8065_67cb case 150 => 0x196c_3671 case 151 => 0x6e6b_06e7
    case 152 => 0xfed4_1b76 case 153 => 0x89d3_2be0 case 154 => 0x10da_7a5a case 155 => 0x67dd_4acc
    case 156 => 0xf9b9_df6f case 157 => 0x8ebe_eff9 case 158 => 0x17b7_be43 case 159 => 0x60b0_8ed5
    case _ => 0
  }

  function RowA(i: bv8): bv32 {
    match i
    case 160 => 0xd6d6_a3e8 case 161 => 0xa1d1_937e case 162 => 0x38d8_c2c4 case 163 => 0x4fdf_f252
    case 164 => 0xd1bb_67f1 case 165 => 0xa6bc_5767 case 166 => 0x3fb5_06dd case 167 => 0x48b2_364b
    case 168 => 0xd80d_2bda case 169 => 0xaf0a_1b4c case 170 => 0x3603_4af6 case 171 => 0x4104_7a60
    case 172 => 0xdf60_efc3 case 173 => 0xa867_df55 case 174 => 0x316e_8eef case 175 => 0x4669_be79
    case _ => 0
  }

  function RowB(i: bv8): bv32 {
    match i
    case 176 => 0xcb61_b38c case 177 => 0xbc66_831a case 178 => 0x256f_d2a0 case 179 => 0x5268_e236
    case 180 => 0xcc0c_7795 case 181 => 0xbb0b_4703 case 182 => 0x2202_16b9 case 183 => 0x5505_262f
    case 184 => 0xc5ba_3bbe case 185 => 0xb2bd_0b28 case 186 => 0x2bb4_5a92 case 187 => 0x5cb3_6a04
    case 188 => 0xc2d7_ffa7 case 189 => 0xb5d0_cf31 case 190 => 0x2cd9_9e8b case 191 => 0x5bde_ae1d
    case _ => 0
  }

  function RowC(i: bv8): bv32 {
    match i
    case 192 => 0x9b64_c2b0 case 193 => 0xec63_f226 case 194 => 0x756a_a39c case 195 => 0x026d_930a
    case 196 => 0x9c09_06a9 case 197 => 0xeb0e_363f case 198 => 0x7207_6785 case 199 => 0x0500_5713
    case 200 => 0x95bf_4a82 case 201 => 0xe2b8_7a14 case 202 => 0x7bb1_2bae case 203 => 0x0cb6_1b38
    case 204 => 0x92d2_8e9b case 205 => 0xe5d5_be0d case 206 => 0x7cdc_efb7 case 207 => 0x0bdb_df21
    case _ => 0
  }

  function RowD(i: bv8): bv32 {
    match i
    case 208 => 0x86d3_d2d4 case 209 => 0xf1d4_e242 case 210 => 0x68dd_b3f8 case 211 => 0x1fda_836e
    case 212 => 0x81be_16cd case 213 => 0xf6b9_265b case 214 => 0x6fb0_77e1 case 215 => 0x18b7_4777
    case 216 => 0x8808_5ae6 case 217 => 0xff0f_6a70 case 218 => 0x6606_3bca case 219 => 0x1101_0b5c
    case 220 => 0x8f65_9eff case 221 => 0xf862_ae69 case 222 => 0x616b_ffd3 case 223 => 0x166c_cf45
    case _ => 0
  }

  function RowE(i: bv8): bv32 {
    match i
    case 224 => 0xa00a_e278 case 225 => 0xd70d_d2ee case 226 => 0x4e04_8354 case 227 => 0x3903_b3c2
    case 228 => 0xa767_2661 case 229 => 0xd060_16f7 case 230 => 0x4969_474d case 231 => 0x3e6e_77db
    case 232 => 0xaed1_6a4a case 233 => 0xd9d6_5adc case 234 => 0x40df_0b66 case 235 => 0x37d8_3bf0
    case 236 => 0xa9bc_ae53 case 237 => 0xdebb_9ec5 case 238 => 0x47b2_cf7f case 239 => 0x30b5_ffe9
    case _ => 0
  }

  function RowF(i: bv8): bv32 {
    match i
    case 240 => 0xbdbd_f21c case 241 => 0xcaba_c28a case 242 => 0x53b3_9330 case 243 => 0x24b4_a3a6
    case 244 => 0xbad0_3605 case 245 => 0xcdd7_0693 case 246 => 0x54de_5729 case 247 => 0x23d9_67bf
    case 248 => 0xb366_7a2e case 249 => 0xc461_4ab8 case 250 => 0x5d68_1b02 case 251 => 0x2a6f_2b94
    case 252 => 0xb40b_be37 case 253 => 0xc30c_8ea1 case 254 => 0x5a05_df1b case 255 => 0x2d02_ef8d
    case _ => 0
  }

  // Every literal of the table is what eight shift steps make of its index
  lemma TableIsEightSteps(i: bv8)
    ensures Entry(i) == Step8(i as bv32)
  {
    if i < 128 {
      if i < 16 { Row0Ok(i); }
      else if i < 32 { Row1Ok(i); }
      else if i < 48 { Row2Ok(i); }
      else if i < 64 { Row3Ok(i); }
      else if i < 80 { Row4Ok(i); }
      else if i < 96 { Row5Ok(i); }
      else if i < 112 { Row6Ok(i); }
      else { Row7Ok(i); }
    } else {
      if i < 144 { Row8Ok(i); }
      else if i < 160 { Row9Ok(i); }
      else if i < 176 { RowAOk(i); }
      else if i < 192 { RowBOk(i); }
      else if i < 208 { RowCOk(i); }
      else if i < 224 { RowDOk(i); }
      else if i < 240 { RowEOk(i); }
      else { RowFOk(i); }
    }
  }

  lemma Row0Ok(i: bv8)
    requires i < 16
    ensures Row0(i) == Step8(i as bv32)
  {
  }

  lemma Row1Ok(i: bv8)
    requires 16 <= i < 32
    ensures Row1(i) == Step8(i as bv32)
  {
  }

  lemma Row2Ok(i: bv8)
    requires 32 <= i < 48
    ensures Row2(i) == Step8(i as bv32)
  {
  }

  lemma Row3Ok(i: bv8)
    requires 48 <= i < 64
    ensures Row3(i) == Step8(i as bv32)
  {
  }

  lemma Row4Ok(i: bv8)
    requires 64 <= i < 80
    ensures Row4(i) == Step8(i as bv32)
  {
  }

  lemma Row5Ok(i: bv8)
    requires 80 <= i < 96
    ensures Row5(i) == Step8(i as bv32)
  {
  }

  lemma Row6Ok(i: bv8)
    requires 96 <= i < 112
    ensures Row6(i) == Step8(i as bv32)
  {
  }

  lemma Row7Ok(i: bv8)
    requires 112 <= i < 128
    ensures Row7(i) == Step8(i as bv32)
  {
  }

  lemma Row8Ok(i: bv8)
    requires 128 <= i < 144
    ensures Row8(i) == Step8(i as bv32)
  {
  }

  lemma Row9Ok(i: bv8)
    requires 144 <= i < 160
    ensures Row9(i) == Step8(i as bv32)
  {
  }

  lemma RowAOk(i: bv8)
    requires 160 <= i < 176
    ensures RowA(i) == Step8(i as bv32)
  {
  }

  lemma RowBOk(i: bv8)
    requires 176 <= i < 192
    ensures RowB(i) == Step8(i as bv32)
  {
  }

  lemma RowCOk(i: bv8)
    requires 192 <= i < 208
    ensures RowC(i) == Step8(i as bv32)
  {
  }

  lemma RowDOk(i: bv8)
    requires 208 <= i < 224
    ensures RowD(i) == Step8(i as bv32)
  {
  }

  lemma RowEOk(i: bv8)
    requires 224 <= i < 240
    ensures RowE(i) == Step8(i as bv32)
  {
  }

  lemma RowFOk(i: bv8)
    requires 240 <= i
    ensures RowF(i) == Step8(i as bv32)
  {
  }
}
