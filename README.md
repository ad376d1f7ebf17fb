# Photo frame fit planner

pictureFrame copies a photo album to local disk, resizes every picture for
the frame's display, and starts a slideshow. This project models the one
part with design content: the geometry that `imgResize` uses to pick a size
for each picture, and for some pictures a crop box.

The geometry has three outcomes:

- **Width-constrained.** A picture whose aspect is strictly wider than the
  display's gets the display's full width and the proportional height.
- **Narrow-picture exception.** A picture that is not wider than the
  display, whose aspect is strictly below `narrowmax` (0.76), on a display
  strictly narrower than `smallscreen` (801 pixels), is blown up to
  `blowupfactor` (1.1) times the display height. The overflow is then
  cropped: `topshare` (0.3) of it from the top and `bottomshare` (0.7) from
  the bottom.
- **Height-constrained.** Every other picture, one that is not wider than
  the display and not in the exception, gets the display's full height and
  the proportional width.

`PictureFrame.Plan(p, w, h, dw, dh)` returns a `ResizePlan(width, height,
crop)`; `crop` is `Some(Box(left, top, right, bottom))` only in the
exception. The policy constants form a `Policy` value of exact fractions.
The bottom share is always one minus the top share, as in the source.
`SourcePolicy` holds the shipped values. The display size is a parameter.
`Plan` requires a valid policy: a blow-up factor of at least one and a top
share no larger than the bottom share, as the shipped constants are. `Plan`
is a function, so equal inputs always give equal plans.

Arithmetic is exact:

- Aspect tests cross-multiply (`w*dh > dw*h`, `w*narrowDen < narrowNum*h`).
- Every Python `int(...)` is `PyInt.Trunc`, which truncates an exact
  fraction toward zero.
- The bottom edge truncates `heightn - overflow*bottomshare` as a whole, as
  pictureFrame.py:129 does. The rows cut from the bottom are therefore that share
  rounded up (`BlowUpAndCrop`).

Three consequences of the code are stated plainly rather than smoothed over:

- The code truncates and never rounds to nearest.
- The code has no positivity guard, so a very narrow or very wide picture can
  get a width or height of 0 (`SomeOutputIsZero`). Only non-negativity is
  proved.
- The cropped height is the display height or one row less
  (`SomeCropIsOneRowShort`), not always the display height.

## Model

| member | source | states |
|---|---|---|
| PyInt.Trunc | pictureFrame.py:116-129 | `int()` of an exact fraction: for a non-negative fraction the result is its floor; for a negative one, its ceiling (truncation toward zero) |
| PictureFrame.SourcePolicyIsValid | pictureFrame.py:32-37 | the shipped settings are a valid policy: small screens are below 801, narrowmax is 76/100 = 0.76, blowupfactor 11/10 = 1.1, topshare 3/10 = 0.3 and bottomshare 1 - 0.3 |
| PictureFrame.WiderIsAspectComparison | pictureFrame.py:112 | `Wider` (w*dh > dw*h) holds exactly when the picture's aspect w/h, as an exact real, is strictly greater than the display's dw/dh |
| PictureFrame.NarrowIsAspectComparison | pictureFrame.py:122 | `Narrow` holds exactly when the picture's aspect w/h, as an exact real, is strictly below narrowmax and the display is strictly narrower than smallscreen |
| PictureFrame.FitWidth | pictureFrame.py:112-117 | a picture strictly wider than the display gets width = display width, height = floor(h*dw/w), which is below the display height, and no crop |
| PictureFrame.FitHeight | pictureFrame.py:118-120 | a picture that is not wider gets height = display height, width = floor(w*dh/h) <= display width, and no crop |
| PictureFrame.BlowUpAndCrop | pictureFrame.py:122-133 | in the exception: height = floor(dh*blowupfactor) >= dh; width = floor(w*height/h); crop box (0, top, width, bottom) inside the picture; top is the top share of the overflow rounded down; the bottom cut is the bottom share rounded up; top cut <= bottom cut; dh or dh - 1 rows kept, exactly dh when the bottom share is whole |
| PictureFrame.Plan | pictureFrame.py:110-136 | a crop happens iff the picture is not wider, its aspect is strictly below the narrow threshold and the display strictly narrower than a small screen; dimensions are never negative; the saved picture is never taller than the display, is never wider unless cropped, and fills the full width, the full height, or after a crop the height less one row |
| PictureFrame.SavedSizeOfPlan | pictureFrame.py:133-136 | `SavedSize` of a plan: the crop to (0, top, width, bottom) keeps the resized width and the rows from top to bottom; without a crop the saved picture has the resized size |
| PictureFrame.AspectTie | pictureFrame.py:112 | an exact aspect tie is not width-constrained, because the test is strict: outside the exception the plan is exactly the display size with no crop |
| PictureFrame.SourceCropIff | pictureFrame.py:32-33 | with the shipped constants, a crop happens iff the picture is not wider, 100*w < 76*h and dw <= 800; an aspect of exactly 0.76 or a display 801 wide never crops |
| PictureFrame.SourceCroppedHeight | pictureFrame.py:34-37 | with the shipped constants, a crop on a display whose height is a multiple of 100 keeps exactly the display height |
| PictureFrame.SomeOutputIsZero | pictureFrame.py:116-120 | some positive inputs get a resized width of 0, and some a height of 0, because nothing guards positivity |
| PictureFrame.SomeCropIsOneRowShort | pictureFrame.py:128-133 | some cropped pictures are one row shorter than the display (600x1600 on 480x768 keeps rows 23 to 789) |
| PictureFrame.AtLeastDisplayHeight | pictureFrame.py:125 | a height multiplied by a factor of at least one and rounded down is not below the original height |
| PictureFrame.CropSetup | pictureFrame.py:125-129 | the top and bottom cuts are non-negative; the top cut is at most the bottom cut; the blown-up height is the floor of the display height plus both cuts; the bottom edge's argument is non-negative |
| PictureFrame.WideExample | pictureFrame.py:112-117 | 4000x2000 on 1920x1080 becomes 1920x960 with no crop |
| PictureFrame.TallExample | pictureFrame.py:118-120 | 1200x1600 on 1920x1080 becomes 810x1080 with no crop, because the display is not small |
| PictureFrame.NarrowExample | pictureFrame.py:122-133 | 600x1600 on 480x800 becomes 330x880, cropped to (0, 24, 330, 824), which keeps 800 rows |

## Left out

- The display size query through `fbset` (pictureFrame.py:29-30): the display's width and height are parameters of `Plan`.
- `main`, argument parsing, directory creation, the `rclone` copy, the loop over the album folder, and stopping and starting `qiv` (pictureFrame.py:41-94): these are process and file-system glue.
- Opening, resizing, cropping, saving and closing pictures with PIL (pictureFrame.py:102-104, 117, 127, 133, 135-140). This is foreign image code. `SavedSize` only gives the size a crop to the plan's box produces.
- The skip when the resized file already exists, the verbose prints, and the run timing (pictureFrame.py:38, 97-100): these are file-system and logging side effects.
- Zero or negative dimensions: `Plan` requires the picture's and the display's width and height to be positive. With a zero picture height or display height the source raises `ZeroDivisionError` at pictureFrame.py:112. With a zero picture width or display width it computes a zero-size plan and asks the image library to resize to it. Decoded images and framebuffer geometries do not have such sizes.
- IEEE-754 floating point: the model computes every expression exactly and then truncates. The program's float arithmetic can land just below a whole number and truncate to one pixel less.
