/** The modulus of IDEA multiplication, 2^16 + 1 = 65537, is prime. Everything
    the cipher relies on about ModuloMult and ModuloMultInv (that every word has
    an inverse and that multiplication never produces zero) comes from this fact.
    The proof tries every candidate divisor up to 256 = sqrt(65536) by direct
    computation, sixteen at a time. */
module Prime65537 {
  import opened Arith

  const P: int := 0x10001

  predicate Prime(n: int)
  {
    n > 1 && forall d :: 1 < d < n ==> n % d != 0
  }

  lemma Factor2(d: int)
    requires 2 <= d <= 17
    ensures P % d != 0
  {
    if d == 2 { assert P % 2 == 1; }
    else if d == 3 { assert P % 3 == 2; }
    else if d == 4 { assert P % 4 == 1; }
    else if d == 5 { assert P % 5 == 2; }
    else if d == 6 { assert P % 6 == 5; }
    else if d == 7 { assert P % 7 == 3; }
    else if d == 8 { assert P % 8 == 1; }
    else if d == 9 { assert P % 9 == 8; }
    else if d == 10 { assert P % 10 == 7; }
    else if d == 11 { assert P % 11 == 10; }
    else if d == 12 { assert P % 12 == 5; }
    else if d == 13 { assert P % 13 == 4; }
    else if d == 14 { assert P % 14 == 3; }
    else if d == 15 { assert P % 15 == 2; }
    else if d == 16 { assert P % 16 == 1; }
    else if d == 17 { assert P % 17 == 2; }
  }
  lemma Factor18(d: int)
    requires 18 <= d <= 33
    ensures P % d != 0
  {
    if d == 18 { assert P % 18 == 17; }
    else if d == 19 { assert P % 19 == 6; }
    else if d == 20 { assert P % 20 == 17; }
    else if d == 21 { assert P % 21 == 17; }
    else if d == 22 { assert P % 22 == 21; }
    else if d == 23 { assert P % 23 == 10; }
    else if d == 24 { assert P % 24 == 17; }
    else if d == 25 { assert P % 25 == 12; }
    else if d == 26 { assert P % 26 == 17; }
    else if d == 27 { assert P % 27 == 8; }
    else if d == 28 { assert P % 28 == 17; }
    else if d == 29 { assert P % 29 == 26; }
    else if d == 30 { assert P % 30 == 17; }
    else if d == 31 { assert P % 31 == 3; }
    else if d == 32 { assert P % 32 == 1; }
    else if d == 33 { assert P % 33 == 32; }
  }
  lemma Factor34(d: int)
    requires 34 <= d <= 49
    ensures P % d != 0
  {
    if d == 34 { assert P % 34 == 19; }
    else if d == 35 { assert P % 35 == 17; }
    else if d == 36 { assert P % 36 == 17; }
    else if d == 37 { assert P % 37 == 10; }
    else if d == 38 { assert P % 38 == 25; }
    else if d == 39 { assert P % 39 == 17; }
    else if d == 40 { assert P % 40 == 17; }
    else if d == 41 { assert P % 41 == 19; }
    else if d == 42 { assert P % 42 == 17; }
    else if d == 43 { assert P % 43 == 5; }
    else if d == 44 { assert P % 44 == 21; }
    else if d == 45 { assert P % 45 == 17; }
    else if d == 46 { assert P % 46 == 33; }
    else if d == 47 { assert P % 47 == 19; }
    else if d == 48 { assert P % 48 == 17; }
    else if d == 49 { assert P % 49 == 24; }
  }
  lemma Factor50(d: int)
    requires 50 <= d <= 65
    ensures P % d != 0
  {
    if d == 50 { assert P % 50 == 37; }
    else if d == 51 { assert P % 51 == 2; }
    else if d == 52 { assert P % 52 == 17; }
    else if d == 53 { assert P % 53 == 29; }
    else if d == 54 { assert P % 54 == 35; }
    else if d == 55 { assert P % 55 == 32; }
    else if d == 56 { assert P % 56 == 17; }
    else if d == 57 { assert P % 57 == 44; }
    else if d == 58 { assert P % 58 == 55; }
    else if d == 59 { assert P % 59 == 47; }
    else if d == 60 { assert P % 60 == 17; }
    else if d == 61 { assert P % 61 == 23; }
    else if d == 62 { assert P % 62 == 3; }
    else if d == 63 { assert P % 63 == 17; }
    else if d == 64 { assert P % 64 == 1; }
    else if d == 65 { assert P % 65 == 17; }
  }
  lemma Factor66(d: int)
    requires 66 <= d <= 81
    ensures P % d != 0
  {
    if d == 66 { assert P % 66 == 65; }
    else if d == 67 { assert P % 67 == 11; }
    else if d == 68 { assert P % 68 == 53; }
    else if d == 69 { assert P % 69 == 56; }
    else if d == 70 { assert P % 70 == 17; }
    else if d == 71 { assert P % 71 == 4; }
    else if d == 72 { assert P % 72 == 17; }
    else if d == 73 { assert P % 73 == 56; }
    else if d == 74 { assert P % 74 == 47; }
    else if d == 75 { assert P % 75 == 62; }
    else if d == 76 { assert P % 76 == 25; }
    else if d == 77 { assert P % 77 == 10; }
    else if d == 78 { assert P % 78 == 17; }
    else if d == 79 { assert P % 79 == 46; }
    else if d == 80 { assert P % 80 == 17; }
    else if d == 81 { assert P % 81 == 8; }
  }
  lemma Factor82(d: int)
    requires 82 <= d <= 97
    ensures P % d != 0
  {
    if d == 82 { assert P % 82 == 19; }
    else if d == 83 { assert P % 83 == 50; }
    else if d == 84 { assert P % 84 == 17; }
    else if d == 85 { assert P % 85 == 2; }
    else if d == 86 { assert P % 86 == 5; }
    else if d == 87 { assert P % 87 == 26; }
    else if d == 88 { assert P % 88 == 65; }
    else if d == 89 { assert P % 89 == 33; }
    else if d == 90 { assert P % 90 == 17; }
    else if d == 91 { assert P % 91 == 17; }
    else if d == 92 { assert P % 92 == 33; }
    else if d == 93 { assert P % 93 == 65; }
    else if d == 94 { assert P % 94 == 19; }
    else if d == 95 { assert P % 95 == 82; }
    else if d == 96 { assert P % 96 == 65; }
    else if d == 97 { assert P % 97 == 62; }
  }
  lemma Factor98(d: int)
    requires 98 <= d <= 113
    ensures P % d != 0
  {
    if d == 98 { assert P % 98 == 73; }
    else if d == 99 { assert P % 99 == 98; }
    else if d == 100 { assert P % 100 == 37; }
    else if d == 101 { assert P % 101 == 89; }
    else if d == 102 { assert P % 102 == 53; }
    else if d == 103 { assert P % 103 == 29; }
    else if d == 104 { assert P % 104 == 17; }
    else if d == 105 { assert P % 105 == 17; }
    else if d == 106 { assert P % 106 == 29; }
    else if d == 107 { assert P % 107 == 53; }
    else if d == 108 { assert P % 108 == 89; }
    else if d == 109 { assert P % 109 == 28; }
    else if d == 110 { assert P % 110 == 87; }
    else if d == 111 { assert P % 111 == 47; }
    else if d == 112 { assert P % 112 == 17; }
    else if d == 113 { assert P % 113 == 110; }
  }
  lemma Factor114(d: int)
    requires 114 <= d <= 129
    ensures P % d != 0
  {
    if d == 114 { assert P % 114 == 101; }
    else if d == 115 { assert P % 115 == 102; }
    else if d == 116 { assert P % 116 == 113; }
    else if d == 117 { assert P % 117 == 17; }
    else if d == 118 { assert P % 118 == 47; }
    else if d == 119 { assert P % 119 == 87; }
    else if d == 120 { assert P % 120 == 17; }
    else if d == 121 { assert P % 121 == 76; }
    else if d == 122 { assert P % 122 == 23; }
    else if d == 123 { assert P % 123 == 101; }
    else if d == 124 { assert P % 124 == 65; }
    else if d == 125 { assert P % 125 == 37; }
    else if d == 126 { assert P % 126 == 17; }
    else if d == 127 { assert P % 127 == 5; }
    else if d == 128 { assert P % 128 == 1; }
    else if d == 129 { assert P % 129 == 5; }
  }
  lemma Factor130(d: int)
    requires 130 <= d <= 145
    ensures P % d != 0
  {
    if d == 130 { assert P % 130 == 17; }
    else if d == 131 { assert P % 131 == 37; }
    else if d == 132 { assert P % 132 == 65; }
    else if d == 133 { assert P % 133 == 101; }
    else if d == 134 { assert P % 134 == 11; }
    else if d == 135 { assert P % 135 == 62; }
    else if d == 136 { assert P % 136 == 121; }
    else if d == 137 { assert P % 137 == 51; }
    else if d == 138 { assert P % 138 == 125; }
    else if d == 139 { assert P % 139 == 68; }
    else if d == 140 { assert P % 140 == 17; }
    else if d == 141 { assert P % 141 == 113; }
    else if d == 142 { assert P % 142 == 75; }
    else if d == 143 { assert P % 143 == 43; }
    else if d == 144 { assert P % 144 == 17; }
    else if d == 145 { assert P % 145 == 142; }
  }
  lemma Factor146(d: int)
    requires 146 <= d <= 161
    ensures P % d != 0
  {
    if d == 146 { assert P % 146 == 129; }
    else if d == 147 { assert P % 147 == 122; }
    else if d == 148 { assert P % 148 == 121; }
    else if d == 149 { assert P % 149 == 126; }
    else if d == 150 { assert P % 150 == 137; }
    else if d == 151 { assert P % 151 == 3; }
    else if d == 152 { assert P % 152 == 25; }
    else if d == 153 { assert P % 153 == 53; }
    else if d == 154 { assert P % 154 == 87; }
    else if d == 155 { assert P % 155 == 127; }
    else if d == 156 { assert P % 156 == 17; }
    else if d == 157 { assert P % 157 == 68; }
    else if d == 158 { assert P % 158 == 125; }
    else if d == 159 { assert P % 159 == 29; }
    else if d == 160 { assert P % 160 == 97; }
    else if d == 161 { assert P % 161 == 10; }
  }
  lemma Factor162(d: int)
    requires 162 <= d <= 177
    ensures P % d != 0
  {
    if d == 162 { assert P % 162 == 89; }
    else if d == 163 { assert P % 163 == 11; }
    else if d == 164 { assert P % 164 == 101; }
    else if d == 165 { assert P % 165 == 32; }
    else if d == 166 { assert P % 166 == 133; }
    else if d == 167 { assert P % 167 == 73; }
    else if d == 168 { assert P % 168 == 17; }
    else if d == 169 { assert P % 169 == 134; }
    else if d == 170 { assert P % 170 == 87; }
    else if d == 171 { assert P % 171 == 44; }
    else if d == 172 { assert P % 172 == 5; }
    else if d == 173 { assert P % 173 == 143; }
    else if d == 174 { assert P % 174 == 113; }
    else if d == 175 { assert P % 175 == 87; }
    else if d == 176 { assert P % 176 == 65; }
    else if d == 177 { assert P % 177 == 47; }
  }
  lemma Factor178(d: int)
    requires 178 <= d <= 193
    ensures P % d != 0
  {
    if d == 178 { assert P % 178 == 33; }
    else if d == 179 { assert P % 179 == 23; }
    else if d == 180 { assert P % 180 == 17; }
    else if d == 181 { assert P % 181 == 15; }
    else if d == 182 { assert P % 182 == 17; }
    else if d == 183 { assert P % 183 == 23; }
    else if d == 184 { assert P % 184 == 33; }
    else if d == 185 { assert P % 185 == 47; }
    else if d == 186 { assert P % 186 == 65; }
    else if d == 187 { assert P % 187 == 87; }
    else if d == 188 { assert P % 188 == 113; }
    else if d == 189 { assert P % 189 == 143; }
    else if d == 190 { assert P % 190 == 177; }
    else if d == 191 { assert P % 191 == 24; }
    else if d == 192 { assert P % 192 == 65; }
    else if d == 193 { assert P % 193 == 110; }
  }
  lemma Factor194(d: int)
    requires 194 <= d <= 209
    ensures P % d != 0
  {
    if d == 194 { assert P % 194 == 159; }
    else if d == 195 { assert P % 195 == 17; }
    else if d == 196 { assert P % 196 == 73; }
    else if d == 197 { assert P % 197 == 133; }
    else if d == 198 { assert P % 198 == 197; }
    else if d == 199 { assert P % 199 == 66; }
    else if d == 200 { assert P % 200 == 137; }
    else if d == 201 { assert P % 201 == 11; }
    else if d == 202 { assert P % 202 == 89; }
    else if d == 203 { assert P % 203 == 171; }
    else if d == 204 { assert P % 204 == 53; }
    else if d == 205 { assert P % 205 == 142; }
    else if d == 206 { assert P % 206 == 29; }
    else if d == 207 { assert P % 207 == 125; }
    else if d == 208 { assert P % 208 == 17; }
    else if d == 209 { assert P % 209 == 120; }
  }
  lemma Factor210(d: int)
    requires 210 <= d <= 225
    ensures P % d != 0
  {
    if d == 210 { assert P % 210 == 17; }
    else if d == 211 { assert P % 211 == 127; }
    else if d == 212 { assert P % 212 == 29; }
    else if d == 213 { assert P % 213 == 146; }
    else if d == 214 { assert P % 214 == 53; }
    else if d == 215 { assert P % 215 == 177; }
    else if d == 216 { assert P % 216 == 89; }
    else if d == 217 { assert P % 217 == 3; }
    else if d == 218 { assert P % 218 == 137; }
    else if d == 219 { assert P % 219 == 56; }
    else if d == 220 { assert P % 220 == 197; }
    else if d == 221 { assert P % 221 == 121; }
    else if d == 222 { assert P % 222 == 47; }
    else if d == 223 { assert P % 223 == 198; }
    else if d == 224 { assert P % 224 == 129; }
    else if d == 225 { assert P % 225 == 62; }
  }
  lemma Factor226(d: int)
    requires 226 <= d <= 241
    ensures P % d != 0
  {
    if d == 226 { assert P % 226 == 223; }
    else if d == 227 { assert P % 227 == 161; }
    else if d == 228 { assert P % 228 == 101; }
    else if d == 229 { assert P % 229 == 43; }
    else if d == 230 { assert P % 230 == 217; }
    else if d == 231 { assert P % 231 == 164; }
    else if d == 232 { assert P % 232 == 113; }
    else if d == 233 { assert P % 233 == 64; }
    else if d == 234 { assert P % 234 == 17; }
    else if d == 235 { assert P % 235 == 207; }
    else if d == 236 { assert P % 236 == 165; }
    else if d == 237 { assert P % 237 == 125; }
    else if d == 238 { assert P % 238 == 87; }
    else if d == 239 { assert P % 239 == 51; }
    else if d == 240 { assert P % 240 == 17; }
    else if d == 241 { assert P % 241 == 226; }
  }
  lemma Factor242(d: int)
    requires 242 <= d <= 256
    ensures P % d != 0
  {
    if d == 242 { assert P % 242 == 197; }
    else if d == 243 { assert P % 243 == 170; }
    else if d == 244 { assert P % 244 == 145; }
    else if d == 245 { assert P % 245 == 122; }
    else if d == 246 { assert P % 246 == 101; }
    else if d == 247 { assert P % 247 == 82; }
    else if d == 248 { assert P % 248 == 65; }
    else if d == 249 { assert P % 249 == 50; }
    else if d == 250 { assert P % 250 == 37; }
    else if d == 251 { assert P % 251 == 26; }
    else if d == 252 { assert P % 252 == 17; }
    else if d == 253 { assert P % 253 == 10; }
    else if d == 254 { assert P % 254 == 5; }
    else if d == 255 { assert P % 255 == 2; }
    else if d == 256 { assert P % 256 == 1; }
  }

  lemma SmallDivisor(d: int)
    requires 2 <= d <= 256
    ensures P % d != 0
  {
    if d <= 17 { Factor2(d); }
    else if d <= 33 { Factor18(d); }
    else if d <= 49 { Factor34(d); }
    else if d <= 65 { Factor50(d); }
    else if d <= 81 { Factor66(d); }
    else if d <= 97 { Factor82(d); }
    else if d <= 113 { Factor98(d); }
    else if d <= 129 { Factor114(d); }
    else if d <= 145 { Factor130(d); }
    else if d <= 161 { Factor146(d); }
    else if d <= 177 { Factor162(d); }
    else if d <= 193 { Factor178(d); }
    else if d <= 209 { Factor194(d); }
    else if d <= 225 { Factor210(d); }
    else if d <= 241 { Factor226(d); }
    else { Factor242(d); }
  }

  /** A divisor above 256 would need a cofactor of at most 256. */
  lemma NoDivisor(d: int)
    requires 1 < d < P
    ensures P % d != 0
  {
    if d <= 256 {
      SmallDivisor(d);
    } else if P % d == 0 {
      var c := P / d;
      assert P == c * d;
      if c >= 257 {
        MulLe(c, 257, d);
        assert false;
      }
      assert c >= 2 by {
        if c <= 1 {
          MulLe(d, c, 1);
          assert false;
        }
      }
      assert P % c == 0 by {
        DivModUnique(P, c, d, 0);
      }
      SmallDivisor(c);
      assert false;
    }
  }

  lemma PIsPrime()
    ensures Prime(P)
  {
    forall d | 1 < d < P
      ensures P % d != 0
    {
      NoDivisor(d);
    }
  }
}
