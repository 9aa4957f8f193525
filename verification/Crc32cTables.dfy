/** The five lookup tables of util/crc32c.cpp, entry by entry, and what they tabulate. */
module Crc32cTables {
  import opened Crc32cSpec

  /** A table of 256 words: entry `c` is in row `c / 16`, column `c % 16`. */
  type Table = seq<seq<bv32>>

  predicate Shape(t: Table) {
    |t| == 16 && forall i | 0 <= i < 16 :: |t[i]| == 16
  }

  predicate IsByte(c: bv32) {
    c & 0xff == c
  }

  function Lookup(t: Table, c: bv32): bv32
    requires Shape(t) && IsByte(c)
  {
    t[(c >> 4) as int][(c & 15) as int]
  }

  /** Entry `c` of `t` is byte `c` extended by `n` zero bits. */
  ghost predicate Tabulates(t: Table, n: nat) {
    Shape(t) && forall c: bv32 | IsByte(c) :: Lookup(t, c) == Shift(c, n)
  }

  const BYTE_EXTENSION: Table := [
    [0x0000_0000, 0xf26b_8303, 0xe13b_70f7, 0x1350_f3f4, 0xc79a_971f, 0x35f1_141c, 0x26a1_e7e8, 0xd4ca_64eb,
     0x8ad9_58cf, 0x78b2_dbcc, 0x6be2_2838, 0x9989_ab3b, 0x4d43_cfd0, 0xbf28_4cd3, 0xac78_bf27, 0x5e13_3c24],
    [0x105e_c76f, 0xe235_446c, 0xf165_b798, 0x030e_349b, 0xd7c4_5070, 0x25af_d373, 0x36ff_2087, 0xc494_a384,
     0x9a87_9fa0, 0x68ec_1ca3, 0x7bbc_ef57, 0x89d7_6c54, 0x5d1d_08bf, 0xaf76_8bbc, 0xbc26_7848, 0x4e4d_fb4b],
    [0x20bd_8ede, 0xd2d6_0ddd, 0xc186_fe29, 0x33ed_7d2a, 0xe727_19c1, 0x154c_9ac2, 0x061c_6936, 0xf477_ea35,
     0xaa64_d611, 0x580f_5512, 0x4b5f_a6e6, 0xb934_25e5, 0x6dfe_410e, 0x9f95_c20d, 0x8cc5_31f9, 0x7eae_b2fa],
    [0x30e3_49b1, 0xc288_cab2, 0xd1d8_3946, 0x23b3_ba45, 0xf779_deae, 0x0512_5dad, 0x1642_ae59, 0xe429_2d5a,
     0xba3a_117e, 0x4851_927d, 0x5b01_6189, 0xa96a_e28a, 0x7da0_8661, 0x8fcb_0562, 0x9c9b_f696, 0x6ef0_7595],
    [0x417b_1dbc, 0xb310_9ebf, 0xa040_6d4b, 0x522b_ee48, 0x86e1_8aa3, 0x748a_09a0, 0x67da_fa54, 0x95b1_7957,
     0xcba2_4573, 0x39c9_c670, 0x2a99_3584, 0xd8f2_b687, 0x0c38_d26c, 0xfe53_516f, 0xed03_a29b, 0x1f68_2198],
    [0x5125_dad3, 0xa34e_59d0, 0xb01e_aa24, 0x4275_2927, 0x96bf_4dcc, 0x64d4_cecf, 0x7784_3d3b, 0x85ef_be38,
     0xdbfc_821c, 0x2997_011f, 0x3ac7_f2eb, 0xc8ac_71e8, 0x1c66_1503, 0xee0d_9600, 0xfd5d_65f4, 0x0f36_e6f7],
    [0x61c6_9362, 0x93ad_1061, 0x80fd_e395, 0x7296_6096, 0xa65c_047d, 0x5437_877e, 0x4767_748a, 0xb50c_f789,
     0xeb1f_cbad, 0x1974_48ae, 0x0a24_bb5a, 0xf84f_3859, 0x2c85_5cb2, 0xdeee_dfb1, 0xcdbe_2c45, 0x3fd5_af46],
    [0x7198_540d, 0x83f3_d70e, 0x90a3_24fa, 0x62c8_a7f9, 0xb602_c312, 0x4469_4011, 0x5739_b3e5, 0xa552_30e6,
     0xfb41_0cc2, 0x092a_8fc1, 0x1a7a_7c35, 0xe811_ff36, 0x3cdb_9bdd, 0xceb0_18de, 0xdde0_eb2a, 0x2f8b_6829],
    [0x82f6_3b78, 0x709d_b87b, 0x63cd_4b8f, 0x91a6_c88c, 0x456c_ac67, 0xb707_2f64, 0xa457_dc90, 0x563c_5f93,
     0x082f_63b7, 0xfa44_e0b4, 0xe914_1340, 0x1b7f_9043, 0xcfb5_f4a8, 0x3dde_77ab, 0x2e8e_845f, 0xdce5_075c],
    [0x92a8_fc17, 0x60c3_7f14, 0x7393_8ce0, 0x81f8_0fe3, 0x5532_6b08, 0xa759_e80b, 0xb409_1bff, 0x4662_98fc,
     0x1871_a4d8, 0xea1a_27db, 0xf94a_d42f, 0x0b21_572c, 0xdfeb_33c7, 0x2d80_b0c4, 0x3ed0_4330, 0xccbb_c033],
    [0xa24b_b5a6, 0x5020_36a5, 0x4370_c551, 0xb11b_4652, 0x65d1_22b9, 0x97ba_a1ba, 0x84ea_524e, 0x7681_d14d,
     0x2892_ed69, 0xdaf9_6e6a, 0xc9a9_9d9e, 0x3bc2_1e9d, 0xef08_7a76, 0x1d63_f975, 0x0e33_0a81, 0xfc58_8982],
    [0xb215_72c9, 0x407e_f1ca, 0x532e_023e, 0xa145_813d, 0x758f_e5d6, 0x87e4_66d5, 0x94b4_9521, 0x66df_1622,
     0x38cc_2a06, 0xcaa7_a905, 0xd9f7_5af1, 0x2b9c_d9f2, 0xff56_bd19, 0x0d3d_3e1a, 0x1e6d_cdee, 0xec06_4eed],
    [0xc38d_26c4, 0x31e6_a5c7, 0x22b6_5633, 0xd0dd_d530, 0x0417_b1db, 0xf67c_32d8, 0xe52c_c12c, 0x1747_422f,
     0x4954_7e0b, 0xbb3f_fd08, 0xa86f_0efc, 0x5a04_8dff, 0x8ece_e914, 0x7ca5_6a17, 0x6ff5_99e3, 0x9d9e_1ae0],
    [0xd3d3_e1ab, 0x21b8_62a8, 0x32e8_915c, 0xc083_125f, 0x1449_76b4, 0xe622_f5b7, 0xf572_0643, 0x0719_8540,
     0x590a_b964, 0xab61_3a67, 0xb831_c993, 0x4a5a_4a90, 0x9e90_2e7b, 0x6cfb_ad78, 0x7fab_5e8c, 0x8dc0_dd8f],
    [0xe330_a81a, 0x115b_2b19, 0x020b_d8ed, 0xf060_5bee, 0x24aa_3f05, 0xd6c1_bc06, 0xc591_4ff2, 0x37fa_ccf1,
     0x69e9_f0d5, 0x9b82_73d6, 0x88d2_8022, 0x7ab9_0321, 0xae73_67ca, 0x5c18_e4c9, 0x4f48_173d, 0xbd23_943e],
    [0xf36e_6f75, 0x0105_ec76, 0x1255_1f82, 0xe03e_9c81, 0x34f4_f86a, 0xc69f_7b69, 0xd5cf_889d, 0x27a4_0b9e,
     0x79b7_37ba, 0x8bdc_b4b9, 0x988c_474d, 0x6ae7_c44e, 0xbe2d_a0a5, 0x4c46_23a6, 0x5f16_d052, 0xad7d_5351]
  ]

  const STRIDE_EXTENSION_0: Table := [
    [0x0000_0000, 0x30d2_3865, 0x61a4_70ca, 0x5176_48af, 0xc348_e194, 0xf39a_d9f1, 0xa2ec_915e, 0x923e_a93b,
     0x837d_b5d9, 0xb3af_8dbc, 0xe2d9_c513, 0xd20b_fd76, 0x4035_544d, 0x70e7_6c28, 0x2191_2487, 0x1143_1ce2],
    [0x0317_1d43, 0x33c5_2526, 0x62b3_6d89, 0x5261_55ec, 0xc05f_fcd7, 0xf08d_c4b2, 0xa1fb_8c1d, 0x9129_b478,
     0x806a_a89a, 0xb0b8_90ff, 0xe1ce_d850, 0xd11c_e035, 0x4322_490e, 0x73f0_716b, 0x2286_39c4, 0x1254_01a1],
    [0x062e_3a86, 0x36fc_02e3, 0x678a_4a4c, 0x5758_7229, 0xc566_db12, 0xf5b4_e377, 0xa4c2_abd8, 0x9410_93bd,
     0x8553_8f5f, 0xb581_b73a, 0xe4f7_ff95, 0xd425_c7f0, 0x461b_6ecb, 0x76c9_56ae, 0x27bf_1e01, 0x176d_2664],
    [0x0539_27c5, 0x35eb_1fa0, 0x649d_570f, 0x544f_6f6a, 0xc671_c651, 0xf6a3_fe34, 0xa7d5_b69b, 0x9707_8efe,
     0x8644_921c, 0xb696_aa79, 0xe7e0_e2d6, 0xd732_dab3, 0x450c_7388, 0x75de_4bed, 0x24a8_0342, 0x147a_3b27],
    [0x0c5c_750c, 0x3c8e_4d69, 0x6df8_05c6, 0x5d2a_3da3, 0xcf14_9498, 0xffc6_acfd, 0xaeb0_e452, 0x9e62_dc37,
     0x8f21_c0d5, 0xbff3_f8b0, 0xee85_b01f, 0xde57_887a, 0x4c69_2141, 0x7cbb_1924, 0x2dcd_518b, 0x1d1f_69ee],
    [0x0f4b_684f, 0x3f99_502a, 0x6eef_1885, 0x5e3d_20e0, 0xcc03_89db, 0xfcd1_b1be, 0xada7_f911, 0x9d75_c174,
     0x8c36_dd96, 0xbce4_e5f3, 0xed92_ad5c, 0xdd40_9539, 0x4f7e_3c02, 0x7fac_0467, 0x2eda_4cc8, 0x1e08_74ad],
    [0x0a72_4f8a, 0x3aa0_77ef, 0x6bd6_3f40, 0x5b04_0725, 0xc93a_ae1e, 0xf9e8_967b, 0xa89e_ded4, 0x984c_e6b1,
     0x890f_fa53, 0xb9dd_c236, 0xe8ab_8a99, 0xd879_b2fc, 0x4a47_1bc7, 0x7a95_23a2, 0x2be3_6b0d, 0x1b31_5368],
    [0x0965_52c9, 0x39b7_6aac, 0x68c1_2203, 0x5813_1a66, 0xca2d_b35d, 0xfaff_8b38, 0xab89_c397, 0x9b5b_fbf2,
     0x8a18_e710, 0xbaca_df75, 0xebbc_97da, 0xdb6e_afbf, 0x4950_0684, 0x7982_3ee1, 0x28f4_764e, 0x1826_4e2b],
    [0x18b8_ea18, 0x286a_d27d, 0x791c_9ad2, 0x49ce_a2b7, 0xdbf0_0b8c, 0xeb22_33e9, 0xba54_7b46, 0x8a86_4323,
     0x9bc5_5fc1, 0xab17_67a4, 0xfa61_2f0b, 0xcab3_176e, 0x588d_be55, 0x685f_8630, 0x3929_ce9f, 0x09fb_f6fa],
    [0x1baf_f75b, 0x2b7d_cf3e, 0x7a0b_8791, 0x4ad9_bff4, 0xd8e7_16cf, 0xe835_2eaa, 0xb943_6605, 0x8991_5e60,
     0x98d2_4282, 0xa800_7ae7, 0xf976_3248, 0xc9a4_0a2d, 0x5b9a_a316, 0x6b48_9b73, 0x3a3e_d3dc, 0x0aec_ebb9],
    [0x1e96_d09e, 0x2e44_e8fb, 0x7f32_a054, 0x4fe0_9831, 0xddde_310a, 0xed0c_096f, 0xbc7a_41c0, 0x8ca8_79a5,
     0x9deb_6547, 0xad39_5d22, 0xfc4f_158d, 0xcc9d_2de8, 0x5ea3_84d3, 0x6e71_bcb6, 0x3f07_f419, 0x0fd5_cc7c],
    [0x1d81_cddd, 0x2d53_f5b8, 0x7c25_bd17, 0x4cf7_8572, 0xdec9_2c49, 0xee1b_142c, 0xbf6d_5c83, 0x8fbf_64e6,
     0x9efc_7804, 0xae2e_4061, 0xff58_08ce, 0xcf8a_30ab, 0x5db4_9990, 0x6d66_a1f5, 0x3c10_e95a, 0x0cc2_d13f],
    [0x14e4_9f14, 0x2436_a771, 0x7540_efde, 0x4592_d7bb, 0xd7ac_7e80, 0xe77e_46e5, 0xb608_0e4a, 0x86da_362f,
     0x9799_2acd, 0xa74b_12a8, 0xf63d_5a07, 0xc6ef_6262, 0x54d1_cb59, 0x6403_f33c, 0x3575_bb93, 0x05a7_83f6],
    [0x17f3_8257, 0x2721_ba32, 0x7657_f29d, 0x4685_caf8, 0xd4bb_63c3, 0xe469_5ba6, 0xb51f_1309, 0x85cd_2b6c,
     0x948e_378e, 0xa45c_0feb, 0xf52a_4744, 0xc5f8_7f21, 0x57c6_d61a, 0x6714_ee7f, 0x3662_a6d0, 0x06b0_9eb5],
    [0x12ca_a592, 0x2218_9df7, 0x736e_d558, 0x43bc_ed3d, 0xd182_4406, 0xe150_7c63, 0xb026_34cc, 0x80f4_0ca9,
     0x91b7_104b, 0xa165_282e, 0xf013_6081, 0xc0c1_58e4, 0x52ff_f1df, 0x622d_c9ba, 0x335b_8115, 0x0389_b970],
    [0x11dd_b8d1, 0x210f_80b4, 0x7079_c81b, 0x40ab_f07e, 0xd295_5945, 0xe247_6120, 0xb331_298f, 0x83e3_11ea,
     0x92a0_0d08, 0xa272_356d, 0xf304_7dc2, 0xc3d6_45a7, 0x51e8_ec9c, 0x613a_d4f9, 0x304c_9c56, 0x009e_a433]
  ]

  const STRIDE_EXTENSION_1: Table := [
    [0x0000_0000, 0x5407_5546, 0xa80e_aa8c, 0xfc09_ffca, 0x55f1_23e9, 0x01f6_76af, 0xfdff_8965, 0xa9f8_dc23,
     0xabe2_47d2, 0xffe5_1294, 0x03ec_ed5e, 0x57eb_b818, 0xfe13_643b, 0xaa14_317d, 0x561d_ceb7, 0x021a_9bf1],
    [0x5228_f955, 0x062f_ac13, 0xfa26_53d9, 0xae21_069f, 0x07d9_dabc, 0x53de_8ffa, 0xafd7_7030, 0xfbd0_2576,
     0xf9ca_be87, 0xadcd_ebc1, 0x51c4_140b, 0x05c3_414d, 0xac3b_9d6e, 0xf83c_c828, 0x0435_37e2, 0x5032_62a4],
    [0xa451_f2aa, 0xf056_a7ec, 0x0c5f_5826, 0x5858_0d60, 0xf1a0_d143, 0xa5a7_8405, 0x59ae_7bcf, 0x0da9_2e89,
     0x0fb3_b578, 0x5bb4_e03e, 0xa7bd_1ff4, 0xf3ba_4ab2, 0x5a42_9691, 0x0e45_c3d7, 0xf24c_3c1d, 0xa64b_695b],
    [0xf679_0bff, 0xa27e_5eb9, 0x5e77_a173, 0x0a70_f435, 0xa388_2816, 0xf78f_7d50, 0x0b86_829a, 0x5f81_d7dc,
     0x5d9b_4c2d, 0x099c_196b, 0xf595_e6a1, 0xa192_b3e7, 0x086a_6fc4, 0x5c6d_3a82, 0xa064_c548, 0xf463_900e],
    [0x4d4f_93a5, 0x1948_c6e3, 0xe541_3929, 0xb146_6c6f, 0x18be_b04c, 0x4cb9_e50a, 0xb0b0_1ac0, 0xe4b7_4f86,
     0xe6ad_d477, 0xb2aa_8131, 0x4ea3_7efb, 0x1aa4_2bbd, 0xb35c_f79e, 0xe75b_a2d8, 0x1b52_5d12, 0x4f55_0854],
    [0x1f67_6af0, 0x4b60_3fb6, 0xb769_c07c, 0xe36e_953a, 0x4a96_4919, 0x1e91_1c5f, 0xe298_e395, 0xb69f_b6d3,
     0xb485_2d22, 0xe082_7864, 0x1c8b_87ae, 0x488c_d2e8, 0xe174_0ecb, 0xb573_5b8d, 0x497a_a447, 0x1d7d_f101],
    [0xe91e_610f, 0xbd19_3449, 0x4110_cb83, 0x1517_9ec5, 0xbcef_42e6, 0xe8e8_17a0, 0x14e1_e86a, 0x40e6_bd2c,
     0x42fc_26dd, 0x16fb_739b, 0xeaf2_8c51, 0xbef5_d917, 0x170d_0534, 0x430a_5072, 0xbf03_afb8, 0xeb04_fafe],
    [0xbb36_985a, 0xef31_cd1c, 0x1338_32d6, 0x473f_6790, 0xeec7_bbb3, 0xbac0_eef5, 0x46c9_113f, 0x12ce_4479,
     0x10d4_df88, 0x44d3_8ace, 0xb8da_7504, 0xecdd_2042, 0x4525_fc61, 0x1122_a927, 0xed2b_56ed, 0xb92c_03ab],
    [0x9a9f_274a, 0xce98_720c, 0x3291_8dc6, 0x6696_d880, 0xcf6e_04a3, 0x9b69_51e5, 0x6760_ae2f, 0x3367_fb69,
     0x317d_6098, 0x657a_35de, 0x9973_ca14, 0xcd74_9f52, 0x648c_4371, 0x308b_1637, 0xcc82_e9fd, 0x9885_bcbb],
    [0xc8b7_de1f, 0x9cb0_8b59, 0x60b9_7493, 0x34be_21d5, 0x9d46_fdf6, 0xc941_a8b0, 0x3548_577a, 0x614f_023c,
     0x6355_99cd, 0x3752_cc8b, 0xcb5b_3341, 0x9f5c_6607, 0x36a4_ba24, 0x62a3_ef62, 0x9eaa_10a8, 0xcaad_45ee],
    [0x3ece_d5e0, 0x6ac9_80a6, 0x96c0_7f6c, 0xc2c7_2a2a, 0x6b3f_f609, 0x3f38_a34f, 0xc331_5c85, 0x9736_09c3,
     0x952c_9232, 0xc12b_c774, 0x3d22_38be, 0x6925_6df8, 0xc0dd_b1db, 0x94da_e49d, 0x68d3_1b57, 0x3cd4_4e11],
    [0x6ce6_2cb5, 0x38e1_79f3, 0xc4e8_8639, 0x90ef_d37f, 0x3917_0f5c, 0x6d10_5a1a, 0x9119_a5d0, 0xc51e_f096,
     0xc704_6b67, 0x9303_3e21, 0x6f0a_c1eb, 0x3b0d_94ad, 0x92f5_488e, 0xc6f2_1dc8, 0x3afb_e202, 0x6efc_b744],
    [0xd7d0_b4ef, 0x83d7_e1a9, 0x7fde_1e63, 0x2bd9_4b25, 0x8221_9706, 0xd626_c240, 0x2a2f_3d8a, 0x7e28_68cc,
     0x7c32_f33d, 0x2835_a67b, 0xd43c_59b1, 0x803b_0cf7, 0x29c3_d0d4, 0x7dc4_8592, 0x81cd_7a58, 0xd5ca_2f1e],
    [0x85f8_4dba, 0xd1ff_18fc, 0x2df6_e736, 0x79f1_b270, 0xd009_6e53, 0x840e_3b15, 0x7807_c4df, 0x2c00_9199,
     0x2e1a_0a68, 0x7a1d_5f2e, 0x8614_a0e4, 0xd213_f5a2, 0x7beb_2981, 0x2fec_7cc7, 0xd3e5_830d, 0x87e2_d64b],
    [0x7381_4645, 0x2786_1303, 0xdb8f_ecc9, 0x8f88_b98f, 0x2670_65ac, 0x7277_30ea, 0x8e7e_cf20, 0xda79_9a66,
     0xd863_0197, 0x8c64_54d1, 0x706d_ab1b, 0x246a_fe5d, 0x8d92_227e, 0xd995_7738, 0x259c_88f2, 0x719b_ddb4],
    [0x21a9_bf10, 0x75ae_ea56, 0x89a7_159c, 0xdda0_40da, 0x7458_9cf9, 0x205f_c9bf, 0xdc56_3675, 0x8851_6333,
     0x8a4b_f8c2, 0xde4c_ad84, 0x2245_524e, 0x7642_0708, 0xdfba_db2b, 0x8bbd_8e6d, 0x77b4_71a7, 0x23b3_24e1]
  ]

  const STRIDE_EXTENSION_2: Table := [
    [0x0000_0000, 0x678e_fd01, 0xcf1d_fa02, 0xa893_0703, 0x9bd7_82f5, 0xfc59_7ff4, 0x54ca_78f7, 0x3344_85f6,
     0x3243_731b, 0x55cd_8e1a, 0xfd5e_8919, 0x9ad0_7418, 0xa994_f1ee, 0xce1a_0cef, 0x6689_0bec, 0x0107_f6ed],
    [0x6486_e636, 0x0308_1b37, 0xab9b_1c34, 0xcc15_e135, 0xff51_64c3, 0x98df_99c2, 0x304c_9ec1, 0x57c2_63c0,
     0x56c5_952d, 0x314b_682c, 0x99d8_6f2f, 0xfe56_922e, 0xcd12_17d8, 0xaa9c_ead9, 0x020f_edda, 0x6581_10db],
    [0xc90d_cc6c, 0xae83_316d, 0x0610_366e, 0x619e_cb6f, 0x52da_4e99, 0x3554_b398, 0x9dc7_b49b, 0xfa49_499a,
     0xfb4e_bf77, 0x9cc0_4276, 0x3453_4575, 0x53dd_b874, 0x6099_3d82, 0x0717_c083, 0xaf84_c780, 0xc80a_3a81],
    [0xad8b_2a5a, 0xca05_d75b, 0x6296_d058, 0x0518_2d59, 0x365c_a8af, 0x51d2_55ae, 0xf941_52ad, 0x9ecf_afac,
     0x9fc8_5941, 0xf846_a440, 0x50d5_a343, 0x375b_5e42, 0x041f_dbb4, 0x6391_26b5, 0xcb02_21b6, 0xac8c_dcb7],
    [0x97f7_ee29, 0xf079_1328, 0x58ea_142b, 0x3f64_e92a, 0x0c20_6cdc, 0x6bae_91dd, 0xc33d_96de, 0xa4b3_6bdf,
     0xa5b4_9d32, 0xc23a_6033, 0x6aa9_6730, 0x0d27_9a31, 0x3e63_1fc7, 0x59ed_e2c6, 0xf17e_e5c5, 0x96f0_18c4],
    [0xf371_081f, 0x94ff_f51e, 0x3c6c_f21d, 0x5be2_0f1c, 0x68a6_8aea, 0x0f28_77eb, 0xa7bb_70e8, 0xc035_8de9,
     0xc132_7b04, 0xa6bc_8605, 0x0e2f_8106, 0x69a1_7c07, 0x5ae5_f9f1, 0x3d6b_04f0, 0x95f8_03f3, 0xf276_fef2],
    [0x5efa_2245, 0x3974_df44, 0x91e7_d847, 0xf669_2546, 0xc52d_a0b0, 0xa2a3_5db1, 0x0a30_5ab2, 0x6dbe_a7b3,
     0x6cb9_515e, 0x0b37_ac5f, 0xa3a4_ab5c, 0xc42a_565d, 0xf76e_d3ab, 0x90e0_2eaa, 0x3873_29a9, 0x5ffd_d4a8],
    [0x3a7c_c473, 0x5df2_3972, 0xf561_3e71, 0x92ef_c370, 0xa1ab_4686, 0xc625_bb87, 0x6eb6_bc84, 0x0938_4185,
     0x083f_b768, 0x6fb1_4a69, 0xc722_4d6a, 0xa0ac_b06b, 0x93e8_359d, 0xf466_c89c, 0x5cf5_cf9f, 0x3b7b_329e],
    [0x2a03_aaa3, 0x4d8d_57a2, 0xe51e_50a1, 0x8290_ada0, 0xb1d4_2856, 0xd65a_d557, 0x7ec9_d254, 0x1947_2f55,
     0x1840_d9b8, 0x7fce_24b9, 0xd75d_23ba, 0xb0d3_debb, 0x8397_5b4d, 0xe419_a64c, 0x4c8a_a14f, 0x2b04_5c4e],
    [0x4e85_4c95, 0x290b_b194, 0x8198_b697, 0xe616_4b96, 0xd552_ce60, 0xb2dc_3361, 0x1a4f_3462, 0x7dc1_c963,
     0x7cc6_3f8e, 0x1b48_c28f, 0xb3db_c58c, 0xd455_388d, 0xe711_bd7b, 0x809f_407a, 0x280c_4779, 0x4f82_ba78],
    [0xe30e_66cf, 0x8480_9bce, 0x2c13_9ccd, 0x4b9d_61cc, 0x78d9_e43a, 0x1f57_193b, 0xb7c4_1e38, 0xd04a_e339,
     0xd14d_15d4, 0xb6c3_e8d5, 0x1e50_efd6, 0x79de_12d7, 0x4a9a_9721, 0x2d14_6a20, 0x8587_6d23, 0xe209_9022],
    [0x8788_80f9, 0xe006_7df8, 0x4895_7afb, 0x2f1b_87fa, 0x1c5f_020c, 0x7bd1_ff0d, 0xd342_f80e, 0xb4cc_050f,
     0xb5cb_f3e2, 0xd245_0ee3, 0x7ad6_09e0, 0x1d58_f4e1, 0x2e1c_7117, 0x4992_8c16, 0xe101_8b15, 0x868f_7614],
    [0xbdf4_448a, 0xda7a_b98b, 0x72e9_be88, 0x1567_4389, 0x2623_c67f, 0x41ad_3b7e, 0xe93e_3c7d, 0x8eb0_c17c,
     0x8fb7_3791, 0xe839_ca90, 0x40aa_cd93, 0x2724_3092, 0x1460_b564, 0x73ee_4865, 0xdb7d_4f66, 0xbcf3_b267],
    [0xd972_a2bc, 0xbefc_5fbd, 0x166f_58be, 0x71e1_a5bf, 0x42a5_2049, 0x252b_dd48, 0x8db8_da4b, 0xea36_274a,
     0xeb31_d1a7, 0x8cbf_2ca6, 0x242c_2ba5, 0x43a2_d6a4, 0x70e6_5352, 0x1768_ae53, 0xbffb_a950, 0xd875_5451],
    [0x74f9_88e6, 0x1377_75e7, 0xbbe4_72e4, 0xdc6a_8fe5, 0xef2e_0a13, 0x88a0_f712, 0x2033_f011, 0x47bd_0d10,
     0x46ba_fbfd, 0x2134_06fc, 0x89a7_01ff, 0xee29_fcfe, 0xdd6d_7908, 0xbae3_8409, 0x1270_830a, 0x75fe_7e0b],
    [0x107f_6ed0, 0x77f1_93d1, 0xdf62_94d2, 0xb8ec_69d3, 0x8ba8_ec25, 0xec26_1124, 0x44b5_1627, 0x233b_eb26,
     0x223c_1dcb, 0x45b2_e0ca, 0xed21_e7c9, 0x8aaf_1ac8, 0xb9eb_9f3e, 0xde65_623f, 0x76f6_653c, 0x1178_983d]
  ]

  const STRIDE_EXTENSION_3: Table := [
    [0x0000_0000, 0xf20c_0dfe, 0xe1f4_6d0d, 0x13f8_60f3, 0xc604_aceb, 0x3408_a115, 0x27f0_c1e6, 0xd5fc_cc18,
     0x89e5_2f27, 0x7be9_22d9, 0x6811_422a, 0x9a1d_4fd4, 0x4fe1_83cc, 0xbded_8e32, 0xae15_eec1, 0x5c19_e33f],
    [0x1626_28bf, 0xe42a_2541, 0xf7d2_45b2, 0x05de_484c, 0xd022_8454, 0x222e_89aa, 0x31d6_e959, 0xc3da_e4a7,
     0x9fc3_0798, 0x6dcf_0a66, 0x7e37_6a95, 0x8c3b_676b, 0x59c7_ab73, 0xabcb_a68d, 0xb833_c67e, 0x4a3f_cb80],
    [0x2c4c_517e, 0xde40_5c80, 0xcdb8_3c73, 0x3fb4_318d, 0xea48_fd95, 0x1844_f06b, 0x0bbc_9098, 0xf9b0_9d66,
     0xa5a9_7e59, 0x57a5_73a7, 0x445d_1354, 0xb651_1eaa, 0x63ad_d2b2, 0x91a1_df4c, 0x8259_bfbf, 0x7055_b241],
    [0x3a6a_79c1, 0xc866_743f, 0xdb9e_14cc, 0x2992_1932, 0xfc6e_d52a, 0x0e62_d8d4, 0x1d9a_b827, 0xef96_b5d9,
     0xb38f_56e6, 0x4183_5b18, 0x527b_3beb, 0xa077_3615, 0x758b_fa0d, 0x8787_f7f3, 0x947f_9700, 0x6673_9afe],
    [0x5898_a2fc, 0xaa94_af02, 0xb96c_cff1, 0x4b60_c20f, 0x9e9c_0e17, 0x6c90_03e9, 0x7f68_631a, 0x8d64_6ee4,
     0xd17d_8ddb, 0x2371_8025, 0x3089_e0d6, 0xc285_ed28, 0x1779_2130, 0xe575_2cce, 0xf68d_4c3d, 0x0481_41c3],
    [0x4ebe_8a43, 0xbcb2_87bd, 0xaf4a_e74e, 0x5d46_eab0, 0x88ba_26a8, 0x7ab6_2b56, 0x694e_4ba5, 0x9b42_465b,
     0xc75b_a564, 0x3557_a89a, 0x26af_c869, 0xd4a3_c597, 0x015f_098f, 0xf353_0471, 0xe0ab_6482, 0x12a7_697c],
    [0x74d4_f382, 0x86d8_fe7c, 0x9520_9e8f, 0x672c_9371, 0xb2d0_5f69, 0x40dc_5297, 0x5324_3264, 0xa128_3f9a,
     0xfd31_dca5, 0x0f3d_d15b, 0x1cc5_b1a8, 0xeec9_bc56, 0x3b35_704e, 0xc939_7db0, 0xdac1_1d43, 0x28cd_10bd],
    [0x62f2_db3d, 0x90fe_d6c3, 0x8306_b630, 0x710a_bbce, 0xa4f6_77d6, 0x56fa_7a28, 0x4502_1adb, 0xb70e_1725,
     0xeb17_f41a, 0x191b_f9e4, 0x0ae3_9917, 0xf8ef_94e9, 0x2d13_58f1, 0xdf1f_550f, 0xcce7_35fc, 0x3eeb_3802],
    [0xb131_45f8, 0x433d_4806, 0x50c5_28f5, 0xa2c9_250b, 0x7735_e913, 0x8539_e4ed, 0x96c1_841e, 0x64cd_89e0,
     0x38d4_6adf, 0xcad8_6721, 0xd920_07d2, 0x2b2c_0a2c, 0xfed0_c634, 0x0cdc_cbca, 0x1f24_ab39, 0xed28_a6c7],
    [0xa717_6d47, 0x551b_60b9, 0x46e3_004a, 0xb4ef_0db4, 0x6113_c1ac, 0x931f_cc52, 0x80e7_aca1, 0x72eb_a15f,
     0x2ef2_4260, 0xdcfe_4f9e, 0xcf06_2f6d, 0x3d0a_2293, 0xe8f6_ee8b, 0x1afa_e375, 0x0902_8386, 0xfb0e_8e78],
    [0x9d7d_1486, 0x6f71_1978, 0x7c89_798b, 0x8e85_7475, 0x5b79_b86d, 0xa975_b593, 0xba8d_d560, 0x4881_d89e,
     0x1498_3ba1, 0xe694_365f, 0xf56c_56ac, 0x0760_5b52, 0xd29c_974a, 0x2090_9ab4, 0x3368_fa47, 0xc164_f7b9],
    [0x8b5b_3c39, 0x7957_31c7, 0x6aaf_5134, 0x98a3_5cca, 0x4d5f_90d2, 0xbf53_9d2c, 0xacab_fddf, 0x5ea7_f021,
     0x02be_131e, 0xf0b2_1ee0, 0xe34a_7e13, 0x1146_73ed, 0xc4ba_bff5, 0x36b6_b20b, 0x254e_d2f8, 0xd742_df06],
    [0xe9a9_e704, 0x1ba5_eafa, 0x085d_8a09, 0xfa51_87f7, 0x2fad_4bef, 0xdda1_4611, 0xce59_26e2, 0x3c55_2b1c,
     0x604c_c823, 0x9240_c5dd, 0x81b8_a52e, 0x73b4_a8d0, 0xa648_64c8, 0x5444_6936, 0x47bc_09c5, 0xb5b0_043b],
    [0xff8f_cfbb, 0x0d83_c245, 0x1e7b_a2b6, 0xec77_af48, 0x398b_6350, 0xcb87_6eae, 0xd87f_0e5d, 0x2a73_03a3,
     0x766a_e09c, 0x8466_ed62, 0x979e_8d91, 0x6592_806f, 0xb06e_4c77, 0x4262_4189, 0x519a_217a, 0xa396_2c84],
    [0xc5e5_b67a, 0x37e9_bb84, 0x2411_db77, 0xd61d_d689, 0x03e1_1a91, 0xf1ed_176f, 0xe215_779c, 0x1019_7a62,
     0x4c00_995d, 0xbe0c_94a3, 0xadf4_f450, 0x5ff8_f9ae, 0x8a04_35b6, 0x7808_3848, 0x6bf0_58bb, 0x99fc_5545],
    [0xd3c3_9ec5, 0x21cf_933b, 0x3237_f3c8, 0xc03b_fe36, 0x15c7_322e, 0xe7cb_3fd0, 0xf433_5f23, 0x063f_52dd,
     0x5a26_b1e2, 0xa82a_bc1c, 0xbbd2_dcef, 0x49de_d111, 0x9c22_1d09, 0x6e2e_10f7, 0x7dd6_7004, 0x8fda_7dfa]
  ]

  // ---- A table that is linear is known from the entries of the powers of two ----

  function Offset(m: bv32, row: seq<bv32>): seq<bv32> {
    seq(|row|, j requires 0 <= j < |row| => Xor(m, row[j]))
  }

  /** The sums of the sixteen subsets of `{a, b, c, d}`. */
  function Sums(a: bv32, b: bv32, c: bv32, d: bv32): seq<bv32> {
    LowSums(a, b, c) + Offset(d, LowSums(a, b, c))
  }

  function LowSums(a: bv32, b: bv32, c: bv32): seq<bv32> {
    [0, a, b, Xor(a, b), c, Xor(a, c), Xor(b, c), Xor(Xor(a, b), c)]
  }

  function Column(t: Table): seq<bv32>
    requires Shape(t)
  {
    seq(16, i requires 0 <= i < 16 => t[i][0])
  }

  predicate RowLinear(t: Table, i: nat)
    requires Shape(t) && i < 16
  {
    t[i] == Offset(t[i][0], t[0])
  }

  predicate Linear(t: Table) {
    && Shape(t)
    && (forall i | 0 <= i < 16 :: RowLinear(t, i))
    && t[0] == Sums(t[0][1], t[0][2], t[0][4], t[0][8])
    && Column(t) == Sums(t[1][0], t[2][0], t[4][0], t[8][0])
  }

  /** `x` to the power `k`, reduced by the polynomial. */
  function Power(k: nat): bv32 {
    Shift(1, k)
  }

  /** The entries of the powers of two; `1 << i` extended by `n` bits is `Power(n - i)`. */
  predicate Basis(t: Table, n: nat)
    requires Shape(t) && n >= 7
  {
    && t[0][1] == Power(n) && t[0][2] == Power(n - 1)
    && t[0][4] == Power(n - 2) && t[0][8] == Power(n - 3)
    && t[1][0] == Power(n - 4) && t[2][0] == Power(n - 5)
    && t[4][0] == Power(n - 6) && t[8][0] == Power(n - 7)
  }

  lemma OffsetShift(m: bv32, row: seq<bv32>, n: nat)
    ensures Offset(Shift(m, n), Shifted(row, n)) == Shifted(Offset(m, row), n)
  {
    hide Xor, Shift;
    forall j | 0 <= j < |row| ensures Shift(Xor(m, row[j]), n) == Xor(Shift(m, n), Shift(row[j], n)) {
      ShiftLinear(m, row[j], n);
    }
  }

  lemma LowSumsShift(a: bv32, b: bv32, c: bv32, n: nat)
    ensures LowSums(Shift(a, n), Shift(b, n), Shift(c, n)) == Shifted(LowSums(a, b, c), n)
  {
    hide Xor, Shift;
    ShiftZero(n);
    ShiftLinear(a, b, n);
    ShiftLinear(a, c, n);
    ShiftLinear(b, c, n);
    ShiftLinear(Xor(a, b), c, n);
    ShiftedEight(LowSums(a, b, c), n);
    hide Shifted;
  }

  lemma ShiftedEight(u: seq<bv32>, n: nat)
    requires |u| == 8
    ensures Shifted(u, n) == [Shift(u[0], n), Shift(u[1], n), Shift(u[2], n), Shift(u[3], n),
                              Shift(u[4], n), Shift(u[5], n), Shift(u[6], n), Shift(u[7], n)]
  {
    hide Shift;
  }

  lemma ShiftedAppend(u: seq<bv32>, v: seq<bv32>, n: nat)
    ensures Shifted(u + v, n) == Shifted(u, n) + Shifted(v, n)
  {
    hide Shift;
  }

  lemma SumsShift(a: bv32, b: bv32, c: bv32, d: bv32, n: nat)
    ensures Sums(Shift(a, n), Shift(b, n), Shift(c, n), Shift(d, n)) == Shifted(Sums(a, b, c, d), n)
  {
    hide Offset, LowSums, Shift, Shifted;
    var low := LowSums(a, b, c);
    LowSumsShift(a, b, c, n);
    OffsetShift(d, low, n);
    ShiftedAppend(low, Offset(d, low), n);
  }

  function Shifted(words: seq<bv32>, n: nat): seq<bv32> {
    seq(|words|, j requires 0 <= j < |words| => Shift(words[j], n))
  }

  lemma {:induction false} ShiftZero(n: nat)
    ensures Shift(0, n) == 0
  {
    if n != 0 {
      ShiftZero(n - 1);
    }
  }

  lemma {:induction false} PowerOf(a: bv32, k: nat, n: nat)
    requires Shift(a, k) == 1 && k <= n
    ensures Shift(a, n) == Power(n - k)
  {
    hide BitStep;
    ShiftAdd(a, k, n - k);
  }

  lemma PowersOfTwo()
    ensures Shift(1, 0) == 1 && Shift(2, 1) == 1 && Shift(4, 2) == 1 && Shift(8, 3) == 1
    ensures Shift(16, 4) == 1 && Shift(32, 5) == 1 && Shift(64, 6) == 1 && Shift(128, 7) == 1
  {
  }

  lemma LowNibble(x: bv32)
    requires IsNibble(x)
    ensures (x as int) < 16 && Sums(1, 2, 4, 8)[x as int] == x
  {
  }

  lemma HighNibble(x: bv32)
    requires IsNibble(x)
    ensures (x as int) < 16 && Sums(16, 32, 64, 128)[x as int] == x << 4
  {
  }

  lemma BasisIsShifted(t: Table, n: nat)
    requires Shape(t) && n >= 7 && Basis(t, n)
    ensures t[0][1] == Shift(1, n) && t[0][2] == Shift(2, n)
    ensures t[0][4] == Shift(4, n) && t[0][8] == Shift(8, n)
    ensures t[1][0] == Shift(16, n) && t[2][0] == Shift(32, n)
    ensures t[4][0] == Shift(64, n) && t[8][0] == Shift(128, n)
  {
    PowersOfTwo();
    hide Shift;
    PowerOf(1, 0, n);
    PowerOf(2, 1, n);
    PowerOf(4, 2, n);
    PowerOf(8, 3, n);
    PowerOf(16, 4, n);
    PowerOf(32, 5, n);
    PowerOf(64, 6, n);
    PowerOf(128, 7, n);
  }

  lemma NibblesOfByte(c: bv32)
    requires IsByte(c)
    ensures IsNibble(c & 15) && IsNibble(c >> 4) && JoinNibbles(c >> 4, c & 15) == c
  {
  }

  /** A linear table with the right entries at the powers of two is right everywhere. */
  lemma LinearTabulates(t: Table, n: nat)
    requires Linear(t) && n >= 7 && Basis(t, n)
    ensures Tabulates(t, n)
  {
    forall c: bv32 | IsByte(c) ensures Lookup(t, c) == Shift(c, n) {
      EntryIsShifted(t, n, c);
    }
  }

  predicate IsNibble(x: bv32) {
    x & 15 == x
  }

  function JoinNibbles(high: bv32, low: bv32): bv32 {
    Xor(high << 4, low)
  }

  lemma EntryIsShifted(t: Table, n: nat, c: bv32)
    requires Linear(t) && n >= 7 && Basis(t, n) && IsByte(c)
    ensures Lookup(t, c) == Shift(c, n)
  {
    assert Shape(t);
    NibblesOfByte(c);
    hide Xor, Shift, Linear, Basis, IsByte, Shape, IsNibble, JoinNibbles;
    EntryOfNibbles(t, n, c >> 4, c & 15);
  }

  lemma EntryOfNibbles(t: Table, n: nat, high: bv32, low: bv32)
    requires Linear(t) && n >= 7 && Basis(t, n) && IsNibble(high) && IsNibble(low)
    ensures (high as int) < 16 && (low as int) < 16
    ensures t[high as int][low as int] == Shift(JoinNibbles(high, low), n)
  {
    LowNibble(low);
    HighNibble(high);
    hide Xor, Shift, Sums, Basis;
    EntryAt(t, n, high as int, low as int);
    ShiftLinear(high << 4, low, n);
  }

  lemma EntryAt(t: Table, n: nat, i: nat, j: nat)
    requires Linear(t) && n >= 7 && Basis(t, n)
    requires i < 16 && j < 16
    ensures |Sums(16, 32, 64, 128)| == |Sums(1, 2, 4, 8)| == 16
    ensures t[i][j] == Xor(Shift(Sums(16, 32, 64, 128)[i], n), Shift(Sums(1, 2, 4, 8)[j], n))
  {
    hide Basis, Xor, Shift;
    BasisIsShifted(t, n);
    SumsShift(1, 2, 4, 8, n);
    SumsShift(16, 32, 64, 128, n);
    assert RowLinear(t, i);
    assert t[i][0] == Column(t)[i];
  }

  // ---- The literals ----

  function EightSteps(r: bv32): bv32 {
    BitStep(BitStep(BitStep(BitStep(BitStep(BitStep(BitStep(BitStep(r))))))))
  }

  lemma EightPowers(k: nat)
    ensures Power(k + 1) == BitStep(Power(k)) && Power(k + 2) == BitStep(Power(k + 1))
    ensures Power(k + 3) == BitStep(Power(k + 2)) && Power(k + 4) == BitStep(Power(k + 3))
    ensures Power(k + 5) == BitStep(Power(k + 4)) && Power(k + 6) == BitStep(Power(k + 5))
    ensures Power(k + 7) == BitStep(Power(k + 6)) && Power(k + 8) == BitStep(Power(k + 7))
  {
    hide BitStep;
    NextPower(k);
    NextPower(k + 1);
    NextPower(k + 2);
    NextPower(k + 3);
    NextPower(k + 4);
    NextPower(k + 5);
    NextPower(k + 6);
    NextPower(k + 7);
  }

  lemma NextPower(k: nat)
    ensures Power(k + 1) == BitStep(Power(k))
  {
    hide BitStep;
    ShiftAdd(1, k, 1);
    assert Shift(Power(k), 1) == Shift(BitStep(Power(k)), 0);
  }

  lemma NextBytePower(k: nat, r: bv32)
    requires Power(k) == r
    ensures Power(k + 8) == EightSteps(r)
  {
    hide BitStep, Power;
    EightPowers(k);
  }

  lemma Power96()
    ensures Power(96) == 0x3171_d430
  {
    hide Power;
    Power0();
    NextBytePower(0, 0x0000_0001);
    NextBytePower(8, 0xf26b_8303);
    NextBytePower(16, 0x13a2_9877);
    NextBytePower(24, 0xa541_927e);
    NextBytePower(32, 0xdd45_aab8);
    NextBytePower(40, 0x3811_6fac);
    NextBytePower(48, 0xef30_6b19);
    NextBytePower(56, 0x6803_2cc8);
    NextBytePower(64, 0x493c_7d27);
    NextBytePower(72, 0xf43e_d648);
    NextBytePower(80, 0xcb56_7ba5);
    NextBytePower(88, 0x9771_f7c1);
  }

  lemma Power0()
    ensures Power(0) == 1
  {
  }

  lemma ByteExtensionBasis()
    ensures Basis(BYTE_EXTENSION, 8)
  {
    hide Power;
    Power0();
    EightPowers(0);
  }

  lemma ByteExtensionRows1()
    ensures RowLinear(BYTE_EXTENSION, 1)
    ensures RowLinear(BYTE_EXTENSION, 2)
  {
  }

  lemma ByteExtensionRows3()
    ensures RowLinear(BYTE_EXTENSION, 3)
    ensures RowLinear(BYTE_EXTENSION, 4)
  {
  }

  lemma ByteExtensionRows5()
    ensures RowLinear(BYTE_EXTENSION, 5)
    ensures RowLinear(BYTE_EXTENSION, 6)
  {
  }

  lemma ByteExtensionRows7()
    ensures RowLinear(BYTE_EXTENSION, 7)
    ensures RowLinear(BYTE_EXTENSION, 8)
  {
  }

  lemma ByteExtensionRows9()
    ensures RowLinear(BYTE_EXTENSION, 9)
    ensures RowLinear(BYTE_EXTENSION, 10)
  {
  }

  lemma ByteExtensionRows11()
    ensures RowLinear(BYTE_EXTENSION, 11)
    ensures RowLinear(BYTE_EXTENSION, 12)
  {
  }

  lemma ByteExtensionRows13()
    ensures RowLinear(BYTE_EXTENSION, 13)
    ensures RowLinear(BYTE_EXTENSION, 14)
  {
  }

  lemma ByteExtensionRows15()
    ensures RowLinear(BYTE_EXTENSION, 15)
  {
  }

  lemma ByteExtensionIsTable()
    ensures Tabulates(BYTE_EXTENSION, 8)
  {
    ByteExtensionBasis();
    ByteExtensionRows1();
    ByteExtensionRows3();
    ByteExtensionRows5();
    ByteExtensionRows7();
    ByteExtensionRows9();
    ByteExtensionRows11();
    ByteExtensionRows13();
    ByteExtensionRows15();
    ByteExtensionEdges();
    ByteExtensionColumn();
    hide RowLinear, Sums, Basis, Tabulates, Column;
    LinearTabulates(BYTE_EXTENSION, 8);
  }

  lemma ByteExtensionEdges()
    ensures Shape(BYTE_EXTENSION) && RowLinear(BYTE_EXTENSION, 0)
    ensures BYTE_EXTENSION[0] == Sums(BYTE_EXTENSION[0][1], BYTE_EXTENSION[0][2],
                                BYTE_EXTENSION[0][4], BYTE_EXTENSION[0][8])
  {
  }

  lemma ByteExtensionColumn()
    ensures Column(BYTE_EXTENSION)
         == Sums(BYTE_EXTENSION[1][0], BYTE_EXTENSION[2][0], BYTE_EXTENSION[4][0], BYTE_EXTENSION[8][0])
  {
  }

  lemma StrideExtension0Basis()
    ensures Basis(STRIDE_EXTENSION_0, 104)
  {
    hide Power;
    Power96();
    EightPowers(96);
  }

  lemma StrideExtension0Rows1()
    ensures RowLinear(STRIDE_EXTENSION_0, 1)
    ensures RowLinear(STRIDE_EXTENSION_0, 2)
  {
  }

  lemma StrideExtension0Rows3()
    ensures RowLinear(STRIDE_EXTENSION_0, 3)
    ensures RowLinear(STRIDE_EXTENSION_0, 4)
  {
  }

  lemma StrideExtension0Rows5()
    ensures RowLinear(STRIDE_EXTENSION_0, 5)
    ensures RowLinear(STRIDE_EXTENSION_0, 6)
  {
  }

  lemma StrideExtension0Rows7()
    ensures RowLinear(STRIDE_EXTENSION_0, 7)
    ensures RowLinear(STRIDE_EXTENSION_0, 8)
  {
  }

  lemma StrideExtension0Rows9()
    ensures RowLinear(STRIDE_EXTENSION_0, 9)
    ensures RowLinear(STRIDE_EXTENSION_0, 10)
  {
  }

  lemma StrideExtension0Rows11()
    ensures RowLinear(STRIDE_EXTENSION_0, 11)
    ensures RowLinear(STRIDE_EXTENSION_0, 12)
  {
  }

  lemma StrideExtension0Rows13()
    ensures RowLinear(STRIDE_EXTENSION_0, 13)
    ensures RowLinear(STRIDE_EXTENSION_0, 14)
  {
  }

  lemma StrideExtension0Rows15()
    ensures RowLinear(STRIDE_EXTENSION_0, 15)
  {
  }

  lemma StrideExtension0IsTable()
    ensures Tabulates(STRIDE_EXTENSION_0, 104)
  {
    StrideExtension0Basis();
    StrideExtension0Rows1();
    StrideExtension0Rows3();
    StrideExtension0Rows5();
    StrideExtension0Rows7();
    StrideExtension0Rows9();
    StrideExtension0Rows11();
    StrideExtension0Rows13();
    StrideExtension0Rows15();
    StrideExtension0Edges();
    StrideExtension0Column();
    hide RowLinear, Sums, Basis, Tabulates, Column;
    LinearTabulates(STRIDE_EXTENSION_0, 104);
  }

  lemma StrideExtension0Edges()
    ensures Shape(STRIDE_EXTENSION_0) && RowLinear(STRIDE_EXTENSION_0, 0)
    ensures STRIDE_EXTENSION_0[0] == Sums(STRIDE_EXTENSION_0[0][1], STRIDE_EXTENSION_0[0][2],
                                STRIDE_EXTENSION_0[0][4], STRIDE_EXTENSION_0[0][8])
  {
  }

  lemma StrideExtension0Column()
    ensures Column(STRIDE_EXTENSION_0)
         == Sums(STRIDE_EXTENSION_0[1][0], STRIDE_EXTENSION_0[2][0], STRIDE_EXTENSION_0[4][0], STRIDE_EXTENSION_0[8][0])
  {
  }

  lemma StrideExtension1Basis()
    ensures Basis(STRIDE_EXTENSION_1, 112)
  {
    hide Power;
    Power96();
    NextBytePower(96, 0x3171_d430);
    EightPowers(104);
  }

  lemma StrideExtension1Rows1()
    ensures RowLinear(STRIDE_EXTENSION_1, 1)
    ensures RowLinear(STRIDE_EXTENSION_1, 2)
  {
  }

  lemma StrideExtension1Rows3()
    ensures RowLinear(STRIDE_EXTENSION_1, 3)
    ensures RowLinear(STRIDE_EXTENSION_1, 4)
  {
  }

  lemma StrideExtension1Rows5()
    ensures RowLinear(STRIDE_EXTENSION_1, 5)
    ensures RowLinear(STRIDE_EXTENSION_1, 6)
  {
  }

  lemma StrideExtension1Rows7()
    ensures RowLinear(STRIDE_EXTENSION_1, 7)
    ensures RowLinear(STRIDE_EXTENSION_1, 8)
  {
  }

  lemma StrideExtension1Rows9()
    ensures RowLinear(STRIDE_EXTENSION_1, 9)
    ensures RowLinear(STRIDE_EXTENSION_1, 10)
  {
  }

  lemma StrideExtension1Rows11()
    ensures RowLinear(STRIDE_EXTENSION_1, 11)
    ensures RowLinear(STRIDE_EXTENSION_1, 12)
  {
  }

  lemma StrideExtension1Rows13()
    ensures RowLinear(STRIDE_EXTENSION_1, 13)
    ensures RowLinear(STRIDE_EXTENSION_1, 14)
  {
  }

  lemma StrideExtension1Rows15()
    ensures RowLinear(STRIDE_EXTENSION_1, 15)
  {
  }

  lemma StrideExtension1IsTable()
    ensures Tabulates(STRIDE_EXTENSION_1, 112)
  {
    StrideExtension1Basis();
    StrideExtension1Rows1();
    StrideExtension1Rows3();
    StrideExtension1Rows5();
    StrideExtension1Rows7();
    StrideExtension1Rows9();
    StrideExtension1Rows11();
    StrideExtension1Rows13();
    StrideExtension1Rows15();
    StrideExtension1Edges();
    StrideExtension1Column();
    hide RowLinear, Sums, Basis, Tabulates, Column;
    LinearTabulates(STRIDE_EXTENSION_1, 112);
  }

  lemma StrideExtension1Edges()
    ensures Shape(STRIDE_EXTENSION_1) && RowLinear(STRIDE_EXTENSION_1, 0)
    ensures STRIDE_EXTENSION_1[0] == Sums(STRIDE_EXTENSION_1[0][1], STRIDE_EXTENSION_1[0][2],
                                STRIDE_EXTENSION_1[0][4], STRIDE_EXTENSION_1[0][8])
  {
  }

  lemma StrideExtension1Column()
    ensures Column(STRIDE_EXTENSION_1)
         == Sums(STRIDE_EXTENSION_1[1][0], STRIDE_EXTENSION_1[2][0], STRIDE_EXTENSION_1[4][0], STRIDE_EXTENSION_1[8][0])
  {
  }

  lemma StrideExtension2Basis()
    ensures Basis(STRIDE_EXTENSION_2, 120)
  {
    hide Power;
    Power96();
    NextBytePower(96, 0x3171_d430);
    NextBytePower(104, 0x30d2_3865);
    EightPowers(112);
  }

  lemma StrideExtension2Rows1()
    ensures RowLinear(STRIDE_EXTENSION_2, 1)
    ensures RowLinear(STRIDE_EXTENSION_2, 2)
  {
  }

  lemma StrideExtension2Rows3()
    ensures RowLinear(STRIDE_EXTENSION_2, 3)
    ensures RowLinear(STRIDE_EXTENSION_2, 4)
  {
  }

  lemma StrideExtension2Rows5()
    ensures RowLinear(STRIDE_EXTENSION_2, 5)
    ensures RowLinear(STRIDE_EXTENSION_2, 6)
  {
  }

  lemma StrideExtension2Rows7()
    ensures RowLinear(STRIDE_EXTENSION_2, 7)
    ensures RowLinear(STRIDE_EXTENSION_2, 8)
  {
  }

  lemma StrideExtension2Rows9()
    ensures RowLinear(STRIDE_EXTENSION_2, 9)
    ensures RowLinear(STRIDE_EXTENSION_2, 10)
  {
  }

  lemma StrideExtension2Rows11()
    ensures RowLinear(STRIDE_EXTENSION_2, 11)
    ensures RowLinear(STRIDE_EXTENSION_2, 12)
  {
  }

  lemma StrideExtension2Rows13()
    ensures RowLinear(STRIDE_EXTENSION_2, 13)
    ensures RowLinear(STRIDE_EXTENSION_2, 14)
  {
  }

  lemma StrideExtension2Rows15()
    ensures RowLinear(STRIDE_EXTENSION_2, 15)
  {
  }

  lemma StrideExtension2IsTable()
    ensures Tabulates(STRIDE_EXTENSION_2, 120)
  {
    StrideExtension2Basis();
    StrideExtension2Rows1();
    StrideExtension2Rows3();
    StrideExtension2Rows5();
    StrideExtension2Rows7();
    StrideExtension2Rows9();
    StrideExtension2Rows11();
    StrideExtension2Rows13();
    StrideExtension2Rows15();
    StrideExtension2Edges();
    StrideExtension2Column();
    hide RowLinear, Sums, Basis, Tabulates, Column;
    LinearTabulates(STRIDE_EXTENSION_2, 120);
  }

  lemma StrideExtension2Edges()
    ensures Shape(STRIDE_EXTENSION_2) && RowLinear(STRIDE_EXTENSION_2, 0)
    ensures STRIDE_EXTENSION_2[0] == Sums(STRIDE_EXTENSION_2[0][1], STRIDE_EXTENSION_2[0][2],
                                STRIDE_EXTENSION_2[0][4], STRIDE_EXTENSION_2[0][8])
  {
  }

  lemma StrideExtension2Column()
    ensures Column(STRIDE_EXTENSION_2)
         == Sums(STRIDE_EXTENSION_2[1][0], STRIDE_EXTENSION_2[2][0], STRIDE_EXTENSION_2[4][0], STRIDE_EXTENSION_2[8][0])
  {
  }

  lemma StrideExtension3Basis()
    ensures Basis(STRIDE_EXTENSION_3, 128)
  {
    hide Power;
    Power96();
    NextBytePower(96, 0x3171_d430);
    NextBytePower(104, 0x30d2_3865);
    NextBytePower(112, 0x5407_5546);
    EightPowers(120);
  }

  lemma StrideExtension3Rows1()
    ensures RowLinear(STRIDE_EXTENSION_3, 1)
    ensures RowLinear(STRIDE_EXTENSION_3, 2)
  {
  }

  lemma StrideExtension3Rows3()
    ensures RowLinear(STRIDE_EXTENSION_3, 3)
    ensures RowLinear(STRIDE_EXTENSION_3, 4)
  {
  }

  lemma StrideExtension3Rows5()
    ensures RowLinear(STRIDE_EXTENSION_3, 5)
    ensures RowLinear(STRIDE_EXTENSION_3, 6)
  {
  }

  lemma StrideExtension3Rows7()
    ensures RowLinear(STRIDE_EXTENSION_3, 7)
    ensures RowLinear(STRIDE_EXTENSION_3, 8)
  {
  }

  lemma StrideExtension3Rows9()
    ensures RowLinear(STRIDE_EXTENSION_3, 9)
    ensures RowLinear(STRIDE_EXTENSION_3, 10)
  {
  }

  lemma StrideExtension3Rows11()
    ensures RowLinear(STRIDE_EXTENSION_3, 11)
    ensures RowLinear(STRIDE_EXTENSION_3, 12)
  {
  }

  lemma StrideExtension3Rows13()
    ensures RowLinear(STRIDE_EXTENSION_3, 13)
    ensures RowLinear(STRIDE_EXTENSION_3, 14)
  {
  }

  lemma StrideExtension3Rows15()
    ensures RowLinear(STRIDE_EXTENSION_3, 15)
  {
  }

  lemma StrideExtension3IsTable()
    ensures Tabulates(STRIDE_EXTENSION_3, 128)
  {
    StrideExtension3Basis();
    StrideExtension3Rows1();
    StrideExtension3Rows3();
    StrideExtension3Rows5();
    StrideExtension3Rows7();
    StrideExtension3Rows9();
    StrideExtension3Rows11();
    StrideExtension3Rows13();
    StrideExtension3Rows15();
    StrideExtension3Edges();
    StrideExtension3Column();
    hide RowLinear, Sums, Basis, Tabulates, Column;
    LinearTabulates(STRIDE_EXTENSION_3, 128);
  }

  lemma StrideExtension3Edges()
    ensures Shape(STRIDE_EXTENSION_3) && RowLinear(STRIDE_EXTENSION_3, 0)
    ensures STRIDE_EXTENSION_3[0] == Sums(STRIDE_EXTENSION_3[0][1], STRIDE_EXTENSION_3[0][2],
                                STRIDE_EXTENSION_3[0][4], STRIDE_EXTENSION_3[0][8])
  {
  }

  lemma StrideExtension3Column()
    ensures Column(STRIDE_EXTENSION_3)
         == Sums(STRIDE_EXTENSION_3[1][0], STRIDE_EXTENSION_3[2][0], STRIDE_EXTENSION_3[4][0], STRIDE_EXTENSION_3[8][0])
  {
  }

}
